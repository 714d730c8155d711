/** The bounded protocol that detaches a test-owned disk image. Every reply of the
    operating system and every clock reading is the environment's free choice. */
module Detach {
  import opened Wrappers

  datatype Attachment = Attachment(imagePath: string, entities: seq<string>)

  /** `hdiutil info`: an exit code and the attached images. */
  datatype Inspection = Inspection(code: int, images: seq<Attachment>)

  /** Replies by command number (none: the command outlived its timeout) and clock
      readings by reading number. */
  datatype Environment = Environment(
    inspect: nat -> Option<Inspection>,
    detach: (nat, string) -> Option<int>,
    clock: nat -> real,
    resolve: string -> string)

  /** What the protocol did, each with the clock reading that allowed it. */
  datatype Act =
    | Inspect(at: real, reply: Option<Inspection>)
    | Detached(at: real, device: string, code: Option<int>)
    | Sleep(at: real, seconds: real)

  datatype Outcome =
    | Gone
    | DeadlineExceeded | TimedOut | InspectionFailed | Ambiguous | StillAttached | NoDevice | IdentityChanged
    | Exhausted | DetachFailed

  const SECONDS: real := 30.0
  const ATTEMPTS := 5
  const BUSY := 16

  // ----- what an inspection says about the image

  function Matches(env: Environment, image: string, rows: seq<Attachment>): seq<Attachment> {
    if rows == [] then []
    else
      (if env.resolve(rows[0].imagePath) == image then [rows[0]] else []) + Matches(env, image, rows[1..])
  }

  const DISK := "/dev/disk"

  predicate WholeDevice(entry: string) {
    && |entry| > 9 && entry[..9] == DISK
    && forall i | 9 <= i < |entry| :: '0' <= entry[i] <= '9'
  }

  function WholeDevices(entities: seq<string>): seq<string> {
    if entities == [] then []
    else (if WholeDevice(entities[0]) then [entities[0]] else []) + WholeDevices(entities[1..])
  }

  // ----- the same, said of the rows themselves

  predicate Owned(env: Environment, image: string, rows: seq<Attachment>, i: nat) {
    i < |rows| && env.resolve(rows[i].imagePath) == image
  }

  ghost predicate OwnedOnce(env: Environment, image: string, rows: seq<Attachment>, i: nat) {
    Owned(env, image, rows, i) && forall j | 0 <= j < |rows| && j != i :: !Owned(env, image, rows, j)
  }

  /** A disk, not one of its partitions: the prefix and then only digits, at least one. */
  ghost predicate NamesDisk(entry: string) {
    exists digits :: digits != "" && entry == "/dev/disk" + digits && AllDigits(digits)
  }

  ghost predicate AllDigits(digits: string) {
    forall i | 0 <= i < |digits| :: digits[i] in "0123456789"
  }

  ghost predicate FirstDisk(entities: seq<string>, device: string, k: nat) {
    && k < |entities| && entities[k] == device && NamesDisk(device)
    && forall j | 0 <= j < k :: !NamesDisk(entities[j])
  }

  ghost predicate Replied(reply: Option<Inspection>) {
    reply.Some? && reply.value.code == 0
  }

  ghost predicate Attached(env: Environment, image: string, reply: Option<Inspection>) {
    Replied(reply) && exists i: nat :: OwnedOnce(env, image, reply.value.images, i)
  }

  /** The image is attached exactly once, and `device` is its first whole device. */
  ghost predicate Confirms(env: Environment, image: string, reply: Option<Inspection>, device: string) {
    && Replied(reply)
    && exists i: nat, k: nat :: OwnedOnce(env, image, reply.value.images, i) && FirstDisk(reply.value.images[i].entities, device, k)
  }

  ghost predicate Diskless(env: Environment, image: string, reply: Option<Inspection>) {
    && Replied(reply)
    && exists i: nat :: OwnedOnce(env, image, reply.value.images, i)
                        && forall k | 0 <= k < |reply.value.images[i].entities| :: !NamesDisk(reply.value.images[i].entities[k])
  }

  ghost predicate Absent(env: Environment, image: string, reply: Option<Inspection>) {
    Replied(reply) && forall i | 0 <= i < |reply.value.images| :: !Owned(env, image, reply.value.images, i)
  }

  ghost predicate AttachedTwice(env: Environment, image: string, reply: Option<Inspection>) {
    Replied(reply) && exists i: nat, j: nat :: i < j && Owned(env, image, reply.value.images, i) && Owned(env, image, reply.value.images, j)
  }

  lemma DigitsAre(ch: char)
    ensures '0' <= ch <= '9' <==> ch in "0123456789"
  {
    if '0' <= ch <= '9' {
      assert "0123456789"[(ch as int) - ('0' as int)] == ch;
    }
  }

  lemma WholeDeviceIs(entry: string)
    ensures WholeDevice(entry) <==> NamesDisk(entry)
  {
    if WholeDevice(entry) {
      var digits := entry[9..];
      forall i | 0 <= i < |digits| ensures digits[i] in "0123456789" { DigitsAre(digits[i]); }
      assert entry == "/dev/disk" + digits && AllDigits(digits);
    }
    if digits :| digits != "" && entry == "/dev/disk" + digits && AllDigits(digits) {
      assert entry[..9] == DISK;
      forall i | 9 <= i < |entry| ensures '0' <= entry[i] <= '9' {
        assert entry[i] == digits[i - 9];
        DigitsAre(entry[i]);
      }
    }
  }

  lemma {:induction false} WholeDevicesIs(entities: seq<string>)
    ensures WholeDevices(entities) == [] <==> forall k | 0 <= k < |entities| :: !NamesDisk(entities[k])
    ensures WholeDevices(entities) != [] ==> exists k: nat :: FirstDisk(entities, WholeDevices(entities)[0], k)
  {
    hide WholeDevice, NamesDisk;
    if entities != [] {
      var rest := entities[1..];
      WholeDevicesIs(rest);
      WholeDeviceIs(entities[0]);
      if NamesDisk(entities[0]) {
        assert FirstDisk(entities, entities[0], 0);
      } else {
        assert forall k | 0 < k < |entities| :: entities[k] == rest[k - 1];
        if WholeDevices(rest) != [] {
          var k: nat :| FirstDisk(rest, WholeDevices(rest)[0], k);
          assert FirstDisk(entities, WholeDevices(rest)[0], k + 1);
        }
      }
    }
  }

  /** The list that the inspection is filtered to: empty, one or more owned rows. */
  lemma {:induction false} MatchesIs(env: Environment, image: string, rows: seq<Attachment>)
    ensures Matches(env, image, rows) == [] <==> forall i | 0 <= i < |rows| :: !Owned(env, image, rows, i)
    ensures |Matches(env, image, rows)| == 1 ==>
      exists i: nat :: OwnedOnce(env, image, rows, i) && rows[i] == Matches(env, image, rows)[0]
    ensures |Matches(env, image, rows)| > 1 ==> exists i: nat, j: nat :: i < j && Owned(env, image, rows, i) && Owned(env, image, rows, j)
  {
    if rows != [] {
      var rest, found := rows[1..], Matches(env, image, rows[1..]);
      MatchesIs(env, image, rest);
      assert forall i | 0 < i < |rows| :: Owned(env, image, rows, i) == Owned(env, image, rest, i - 1);
      if Owned(env, image, rows, 0) {
        if found == [] {
          assert OwnedOnce(env, image, rows, 0);
        } else {
          var j := SomeOwned(env, image, rest);
          assert Owned(env, image, rows, 0) && Owned(env, image, rows, j + 1);
        }
      } else {
        ShiftOwned(env, image, rows);
      }
    }
  }

  lemma SomeOwned(env: Environment, image: string, rows: seq<Attachment>) returns (j: nat)
    requires Matches(env, image, rows) != []
    ensures Owned(env, image, rows, j)
    decreases rows
  {
    if Owned(env, image, rows, 0) {
      j := 0;
    } else {
      j := SomeOwned(env, image, rows[1..]);
      j := j + 1;
    }
  }

  lemma ShiftOwned(env: Environment, image: string, rows: seq<Attachment>)
    requires rows != [] && !Owned(env, image, rows, 0)
    ensures forall i: nat | OwnedOnce(env, image, rows[1..], i) :: OwnedOnce(env, image, rows, i + 1) && rows[i + 1] == rows[1..][i]
    ensures forall i: nat, j: nat | i < j && Owned(env, image, rows[1..], i) && Owned(env, image, rows[1..], j) ::
      Owned(env, image, rows, i + 1) && Owned(env, image, rows, j + 1)
  {
    assert forall i: nat | 0 < i < |rows| :: Owned(env, image, rows, i) == Owned(env, image, rows[1..], i - 1);
  }

  lemma FirstDiskIsUnique(entities: seq<string>, a: string, k: nat, b: string, l: nat)
    requires FirstDisk(entities, a, k) && FirstDisk(entities, b, l)
    ensures a == b
  {
    hide NamesDisk;
  }

  /** What the filtered rows and devices say about the reply. */
  lemma ReplySays(env: Environment, image: string, reply: Option<Inspection>)
    requires Replied(reply)
    ensures var found := Matches(env, image, reply.value.images);
      && (found == [] ==> Absent(env, image, reply))
      && (|found| > 1 ==> AttachedTwice(env, image, reply))
      && (|found| == 1 ==> Attached(env, image, reply))
      && (|found| == 1 && WholeDevices(found[0].entities) == [] ==> Diskless(env, image, reply))
      && (|found| == 1 && WholeDevices(found[0].entities) != [] ==>
          forall device :: Confirms(env, image, reply, device) <==> device == WholeDevices(found[0].entities)[0])
  {
    hide Matches, WholeDevices, NamesDisk, Owned;
    var rows := reply.value.images;
    var found := Matches(env, image, rows);
    MatchesIs(env, image, rows);
    if |found| == 1 {
      var i: nat :| OwnedOnce(env, image, rows, i) && rows[i] == found[0];
      var entities := found[0].entities;
      WholeDevicesIs(entities);
      if WholeDevices(entities) != [] {
        var first := WholeDevices(entities)[0];
        var k: nat :| FirstDisk(entities, first, k);
        assert Confirms(env, image, reply, first);
        forall device | Confirms(env, image, reply, device) ensures device == first {
          var j: nat, l: nat :| OwnedOnce(env, image, rows, j) && FirstDisk(rows[j].entities, device, l);
          assert i == j;
          FirstDiskIsUnique(entities, first, k, device, l);
        }
      }
    }
  }

  // ----- what a whole run keeps

  function Inspections(trace: seq<Act>): nat {
    if trace == [] then 0 else Inspections(trace[..|trace| - 1]) + if trace[|trace| - 1].Inspect? then 1 else 0
  }

  function Detaches(trace: seq<Act>): nat {
    if trace == [] then 0 else Detaches(trace[..|trace| - 1]) + if trace[|trace| - 1].Detached? then 1 else 0
  }

  function Slept(trace: seq<Act>): real {
    if trace == [] then 0.0
    else Slept(trace[..|trace| - 1]) + match trace[|trace| - 1] case Sleep(_, s) => s case _ => 0.0
  }

  /** Every detach targets the one device that the inspection just before it confirmed. */
  ghost predicate Authorized(env: Environment, image: string, trace: seq<Act>) {
    forall i | 0 <= i < |trace| && trace[i].Detached? ::
      0 < i && trace[i - 1].Inspect? && Confirms(env, image, trace[i - 1].reply, trace[i].device)
  }

  ghost predicate OneDevice(trace: seq<Act>) {
    forall i, j | 0 <= i < |trace| && 0 <= j < |trace| && trace[i].Detached? && trace[j].Detached? ::
      trace[i].device == trace[j].device
  }

  /** Only a busy detach is ever followed by another one. */
  ghost predicate RetriesOnlyBusy(trace: seq<Act>) {
    forall i, j | 0 <= i < j < |trace| && trace[i].Detached? && trace[j].Detached? :: trace[i].code == Some(BUSY)
  }

  /** Nothing starts at or after the deadline and no sleep runs past it. */
  ghost predicate InTime(deadline: real, trace: seq<Act>) {
    forall i | 0 <= i < |trace| ::
      trace[i].at < deadline && (trace[i].Sleep? ==> 0.0 < trace[i].seconds && trace[i].at + trace[i].seconds <= deadline)
  }

  /** Every act is allowed by a clock reading of its own, taken just before it. */
  ghost predicate Timed(env: Environment, trace: seq<Act>) {
    forall i | 0 <= i < |trace| :: trace[i].at == env.clock(i + 1)
  }

  predicate Busy(act: Act) {
    act.Detached? && act.code == Some(BUSY)
  }

  /** The pause after the n-th busy detach: doubling, but never past the deadline. */
  function Pause(n: nat, remaining: real): real
    requires n > 0
  {
    if Power(n - 1) as real <= remaining then Power(n - 1) as real else remaining
  }

  /** The act after a busy detach, unless that was the last attempt, is its pause, and
      nothing else sleeps. */
  ghost predicate Paced(deadline: real, trace: seq<Act>) {
    forall j | 0 < j < |trace| :: PacedIn(deadline, trace, j)
  }

  ghost predicate PacedIn(deadline: real, trace: seq<Act>, j: nat)
    requires 0 < j < |trace|
  {
    PacedAt(deadline, Detaches(trace[..j]), trace[j - 1], trace[j])
  }

  ghost predicate PacedAt(deadline: real, detaches: nat, before: Act, act: Act) {
    && (act.Sleep? <==> Busy(before) && detaches < ATTEMPTS)
    && (act.Sleep? ==> detaches > 0 && act.seconds == Pause(detaches, deadline - act.at))
  }

  function Commands(trace: seq<Act>): nat {
    Inspections(trace) + Detaches(trace)
  }

  /** Every reply is the environment's reply to that command, in order. */
  ghost predicate Genuine(env: Environment, trace: seq<Act>) {
    forall i | 0 <= i < |trace| :: GenuineAct(env, Commands(trace[..i]), trace[i])
  }

  ghost predicate GenuineAct(env: Environment, number: nat, act: Act) {
    match act
    case Inspect(_, reply) => reply == env.inspect(number)
    case Detached(_, device, code) => code == env.detach(number, device)
    case Sleep(_, _) => true
  }

  ghost predicate Safe(env: Environment, image: string, trace: seq<Act>) {
    && Genuine(env, trace) && Timed(env, trace) && Paced(env.clock(0) + SECONDS, trace)
    && Authorized(env, image, trace) && OneDevice(trace) && RetriesOnlyBusy(trace)
    && (trace != [] ==> trace[0].Inspect?)
    && Detaches(trace) <= ATTEMPTS && Inspections(trace) <= ATTEMPTS + 1
    && InTime(env.clock(0) + SECONDS, trace) && Slept(trace) <= 15.0
  }

  ghost predicate AllBusy(trace: seq<Act>) {
    forall i | 0 <= i < |trace| && trace[i].Detached? :: trace[i].code == Some(BUSY)
  }

  /** What the trace shows when a run ends in `outcome`. */
  ghost predicate Explains(env: Environment, image: string, trace: seq<Act>, outcome: Outcome) {
    var n := |trace|;
    var inspected := n > 0 && trace[n - 1].Inspect?;
    match outcome
    case Gone => inspected && Absent(env, image, trace[n - 1].reply)
    case InspectionFailed => inspected && trace[n - 1].reply.Some? && trace[n - 1].reply.value.code != 0
    case Ambiguous =>
      inspected && AttachedTwice(env, image, trace[n - 1].reply)
    case StillAttached =>
      && inspected && Attached(env, image, trace[n - 1].reply)
      && n > 1 && trace[n - 2].Detached? && trace[n - 2].code == Some(0)
    case NoDevice =>
      inspected && Diskless(env, image, trace[n - 1].reply) && AllBusy(trace)
    case IdentityChanged =>
      && inspected && Attached(env, image, trace[n - 1].reply) && AllBusy(trace)
      && exists i :: 0 <= i < n && trace[i].Detached? && !Confirms(env, image, trace[n - 1].reply, trace[i].device)
    case Exhausted =>
      inspected && Attached(env, image, trace[n - 1].reply) && Detaches(trace) == ATTEMPTS && AllBusy(trace)
    case DetachFailed =>
      n > 0 && trace[n - 1].Detached? && trace[n - 1].code.Some? && trace[n - 1].code.value !in {0, BUSY}
    case TimedOut =>
      n > 0 && ((inspected && trace[n - 1].reply.None?) || (trace[n - 1].Detached? && trace[n - 1].code.None?))
    case DeadlineExceeded => env.clock(n + 1) >= env.clock(0) + SECONDS
  }

  // ----- the loop's invariant and its three steps

  ghost predicate Underway(env: Environment, image: string, trace: seq<Act>, original: Option<string>, succeeded: bool,
                           attempts: nat) {
    && Genuine(env, trace) && Timed(env, trace) && Paced(env.clock(0) + SECONDS, trace)
    && Authorized(env, image, trace) && OneDevice(trace) && RetriesOnlyBusy(trace)
    && InTime(env.clock(0) + SECONDS, trace) && (trace != [] ==> trace[0].Inspect?)
    && attempts == Detaches(trace) == Inspections(trace) <= ATTEMPTS
    && (forall i | 0 <= i < |trace| && trace[i].Detached? :: original == Some(trace[i].device))
    && (original.Some? ==> exists i :: 0 <= i < |trace| && trace[i].Detached?)
    && (!succeeded ==> AllBusy(trace))
    && (succeeded ==> trace != [] && trace[|trace| - 1].Detached? && trace[|trace| - 1].code == Some(0))
    && Slept(trace) <= (Power(if attempts < ATTEMPTS then attempts else ATTEMPTS - 1) - 1) as real
  }

  lemma StillSafe(env: Environment, image: string, trace: seq<Act>, original: Option<string>, succeeded: bool, attempts: nat)
    requires Underway(env, image, trace, original, succeeded, attempts)
    ensures Safe(env, image, trace)
  {
    Powers();
    hide Power, Genuine, Timed, Paced, Authorized, OneDevice, RetriesOnlyBusy, InTime, AllBusy, Inspections, Detaches, Slept;
  }

  /** A busy detach has had its pause, unless it was the last attempt. */
  ghost predicate Rested(trace: seq<Act>, attempts: nat) {
    trace != [] && Busy(trace[|trace| - 1]) ==> attempts >= ATTEMPTS
  }

  lemma PacedGrows(deadline: real, trace: seq<Act>, act: Act)
    requires Paced(deadline, trace)
    requires if trace == [] then !act.Sleep? else PacedAt(deadline, Detaches(trace), trace[|trace| - 1], act)
    ensures Paced(deadline, trace + [act])
  {
    hide PacedAt, Detaches;
    var grown := trace + [act];
    forall j | 0 < j < |grown| ensures PacedIn(deadline, grown, j) {
      if j < |trace| {
        assert PacedIn(deadline, trace, j) && grown[..j] == trace[..j];
      } else {
        assert grown[..j] == trace;
      }
    }
  }

  lemma TimedGrows(env: Environment, trace: seq<Act>, act: Act)
    requires Timed(env, trace) && act.at == env.clock(|trace| + 1)
    ensures Timed(env, trace + [act])
  {
  }

  lemma Inspecting(env: Environment, image: string, trace: seq<Act>, original: Option<string>, succeeded: bool,
                   attempts: nat, act: Act)
    requires Underway(env, image, trace, original, succeeded, attempts)
    requires Rested(trace, attempts)
    requires act.Inspect? && act.at == env.clock(|trace| + 1) < env.clock(0) + SECONDS
    requires act.reply == env.inspect(Commands(trace))
    ensures Safe(env, image, trace + [act]) && Commands(trace + [act]) == Commands(trace) + 1
    ensures Detaches(trace + [act]) == attempts
    ensures original.Some? ==> exists i :: 0 <= i < |trace + [act]| && (trace + [act])[i].Detached?
                                           && (trace + [act])[i].device == original.value
    ensures succeeded ==> |trace| > 0 && trace[|trace| - 1].Detached? && trace[|trace| - 1].code == Some(0)
    ensures !succeeded ==> AllBusy(trace + [act])
  {
    Powers();
    hide Genuine, Inspections, Detaches, Slept, Confirms, Matches, WholeDevices, Power, Paced;
    Counted(trace, act);
    GenuineGrows(env, trace, act);
    PacedGrows(env.clock(0) + SECONDS, trace, act);
    if original.Some? {
      var i :| 0 <= i < |trace| && trace[i].Detached?;
      assert (trace + [act])[i].Detached? && (trace + [act])[i].device == original.value;
    }
  }

  lemma Detaching(env: Environment, image: string, trace: seq<Act>, original: Option<string>, attempts: nat,
                  seen: Act, act: Act)
    requires Underway(env, image, trace, original, false, attempts) && attempts < ATTEMPTS && Rested(trace, attempts)
    requires seen.Inspect? && seen.at == env.clock(|trace| + 1) < env.clock(0) + SECONDS
    requires seen.reply == env.inspect(Commands(trace))
    requires act.Detached? && act.at == env.clock(|trace| + 2) < env.clock(0) + SECONDS
    requires act.code == env.detach(Commands(trace) + 1, act.device)
    requires Confirms(env, image, seen.reply, act.device) && (original.None? || original.value == act.device)
    ensures Safe(env, image, trace + [seen] + [act]) && Commands(trace + [seen] + [act]) == Commands(trace) + 2
    ensures act.code in {Some(0), Some(BUSY)} ==>
      && Underway(env, image, trace + [seen] + [act], Some(act.device), act.code == Some(0), attempts + 1)
      && Slept(trace + [seen] + [act]) <= (Power(attempts) - 1) as real
  {
    Powers();
    hide Genuine, Inspections, Detaches, Slept, Confirms, Power, Authorized, OneDevice, RetriesOnlyBusy, InTime, AllBusy, Paced, Timed, Matches, WholeDevices;
    Counted(trace, seen);
    Counted(trace + [seen], act);
    GenuineGrows(env, trace, seen);
    GenuineGrows(env, trace + [seen], act);
    PacedGrows(env.clock(0) + SECONDS, trace, seen);
    PacedGrows(env.clock(0) + SECONDS, trace + [seen], act);
    TimedGrows(env, trace, seen);
    TimedGrows(env, trace + [seen], act);
    DetachTrace(env, image, trace, original, seen, act);
    assert (trace + [seen] + [act])[|trace| + 1] == act;
  }

  /** What a confirmed detach keeps of the trace. */
  lemma DetachTrace(env: Environment, image: string, trace: seq<Act>, original: Option<string>, seen: Act, act: Act)
    requires Authorized(env, image, trace) && InTime(env.clock(0) + SECONDS, trace) && AllBusy(trace)
    requires forall i | 0 <= i < |trace| && trace[i].Detached? :: original == Some(trace[i].device)
    requires seen.Inspect? && act.Detached? && seen.at < env.clock(0) + SECONDS && act.at < env.clock(0) + SECONDS
    requires Confirms(env, image, seen.reply, act.device) && (original.None? || original.value == act.device)
    ensures var after := trace + [seen] + [act];
      && Authorized(env, image, after) && OneDevice(after) && RetriesOnlyBusy(after)
      && InTime(env.clock(0) + SECONDS, after) && (act.code == Some(BUSY) ==> AllBusy(after))
      && forall i | 0 <= i < |after| && after[i].Detached? :: after[i].device == act.device
  {
    hide Confirms;
    var after := trace + [seen] + [act];
    assert after[|trace| + 1] == act && after[|trace|] == seen;
    assert forall i | 0 <= i < |trace| :: after[i] == trace[i];
  }

  lemma Sleeping(env: Environment, image: string, trace: seq<Act>, original: Option<string>, attempts: nat,
                 act: Act)
    requires Underway(env, image, trace, original, false, attempts) && 0 < attempts < ATTEMPTS
    requires Slept(trace) <= (Power(attempts - 1) - 1) as real
    requires trace != [] && Busy(trace[|trace| - 1])
    requires act.Sleep? && act.at == env.clock(|trace| + 1) < env.clock(0) + SECONDS
    requires act.seconds == Pause(attempts, env.clock(0) + SECONDS - act.at)
    ensures Underway(env, image, trace + [act], original, false, attempts) && Commands(trace + [act]) == Commands(trace)
  {
    Powers();
    hide Genuine, Inspections, Detaches, Slept, Confirms, Matches, WholeDevices, Power, Paced;
    Counted(trace, act);
    GenuineGrows(env, trace, act);
    PacedGrows(env.clock(0) + SECONDS, trace, act);
    if original.Some? {
      var i :| 0 <= i < |trace| && trace[i].Detached?;
      assert (trace + [act])[i].Detached?;
    }
  }

  function Power(n: nat): (p: nat)
    ensures p >= 1
  {
    if n == 0 then 1 else 2 * Power(n - 1)
  }

  /** `detach_owned_image`. */
  method DetachOwnedImage(env: Environment, image: string) returns (outcome: Outcome, trace: seq<Act>)
    ensures Safe(env, image, trace)
    ensures Explains(env, image, trace, outcome)
  {
    hide Safe, Underway, Detaches, Power, AllBusy, Slept, Commands, Matches, WholeDevices, Pause,
      Absent, AttachedTwice, Attached, Diskless, Confirms;
    trace := [];
    var readings, commands, attempts := 1, 0, 0;
    var deadline := env.clock(0) + SECONDS;
    var original: Option<string> := None;
    var succeeded := false;
    Starting(env, image);
    while true
      invariant Underway(env, image, trace, original, succeeded, attempts)
      invariant attempts <= ATTEMPTS && commands == Commands(trace)
      invariant readings == |trace| + 1 && Rested(trace, attempts)
      decreases ATTEMPTS - attempts
    {
      StillSafe(env, image, trace, original, succeeded, attempts);
      var now := env.clock(readings);
      readings := readings + 1;
      if deadline - now <= 0.0 { return DeadlineExceeded, trace; }
      var info := env.inspect(commands);
      commands := commands + 1;
      var seen := Inspect(now, info);
      Inspecting(env, image, trace, original, succeeded, attempts, seen);
      ghost var before := trace;
      trace := trace + [seen];
      if info.None? { return TimedOut, trace; }
      if info.value.code != 0 { return InspectionFailed, trace; }
      var found := Matches(env, image, info.value.images);
      ReplySays(env, image, info);
      if |found| > 1 { return Ambiguous, trace; }
      if found == [] { return Gone, trace; }
      if succeeded { return StillAttached, trace; }
      var devices := WholeDevices(found[0].entities);
      if devices == [] { return NoDevice, trace; }
      if original.Some? && original.value != devices[0] { return IdentityChanged, trace; }
      if attempts >= ATTEMPTS { return Exhausted, trace; }
      now := env.clock(readings);
      readings := readings + 1;
      if deadline - now <= 0.0 { return DeadlineExceeded, trace; }
      var result := env.detach(commands, devices[0]);
      commands := commands + 1;
      var act := Detached(now, devices[0], result);
      Detaching(env, image, before, original, attempts, seen, act);
      original := Some(devices[0]);
      trace := trace + [act];
      attempts := attempts + 1;
      succeeded := result == Some(0);
      if result.None? { return TimedOut, trace; }
      if result.value != 0 && result.value != BUSY { return DetachFailed, trace; }
      if result.value == BUSY && attempts < ATTEMPTS {
        now := env.clock(readings);
        readings := readings + 1;
        var remaining := deadline - now;
        if remaining <= 0.0 { return DeadlineExceeded, trace; }
        var sleep := Sleep(now, Pause(attempts, remaining));
        Sleeping(env, image, trace, original, attempts, sleep);
        trace := trace + [sleep];
      }
    }
  }

  lemma Starting(env: Environment, image: string)
    ensures Underway(env, image, [], None, false, 0) && Commands([]) == 0
  {
  }

  lemma GenuineGrows(env: Environment, trace: seq<Act>, act: Act)
    requires Genuine(env, trace) && GenuineAct(env, Commands(trace), act)
    ensures Genuine(env, trace + [act])
  {
    var grown := trace + [act];
    forall i | 0 <= i < |grown| ensures GenuineAct(env, Commands(grown[..i]), grown[i]) {
      if i < |trace| { assert grown[..i] == trace[..i]; } else { assert grown[..i] == trace; }
    }
  }

  lemma Counted(trace: seq<Act>, act: Act)
    ensures Inspections(trace + [act]) == Inspections(trace) + if act.Inspect? then 1 else 0
    ensures Detaches(trace + [act]) == Detaches(trace) + if act.Detached? then 1 else 0
    ensures Slept(trace + [act]) == Slept(trace) + if act.Sleep? then act.seconds else 0.0
  {
    assert (trace + [act])[..|trace|] == trace;
  }

  lemma Powers()
    ensures Power(0) == 1 && Power(1) == 2 && Power(2) == 4 && Power(3) == 8 && Power(4) == 16
  {
    assert Power(2) == 4;
  }
}
