/** The recent-operations panel (`client/src/components/OperationHistory.tsx`):
    a newest-first list of at most ten operations, the record each finished
    operation announces, and the relative time shown beside each entry. */
module OperationHistory {
  import opened JsBuiltins

  datatype OperationType = Encrypt | Decrypt

  /** `{ id, type, fileName, timestamp }`. */
  datatype Operation = Operation(id: string, kind: OperationType, fileName: string, timestamp: int)

  /** How many operations the list keeps. */
  const MaxOperations: nat := 10

  // ---------------------------------------------------------------------
  // The list

  /** `[newOp, ...prev].slice(0, 10)`: the new operation first, then the
      previous ones in their order, cut to ten entries. */
  function Prepended(prev: seq<Operation>, op: Operation): (r: seq<Operation>)
    ensures |r| == if |prev| + 1 < MaxOperations then |prev| + 1 else MaxOperations
    ensures r[0] == op
    ensures forall i :: 1 <= i < |r| ==> r[i] == prev[i - 1]
  {
    var all := [op] + prev;
    if |all| < MaxOperations then all else all[..MaxOperations]
  }

  /** A list that is already full loses exactly its last (oldest) entry. */
  lemma PrependedToFull(prev: seq<Operation>, op: Operation)
    requires |prev| == MaxOperations
    ensures Prepended(prev, op) == [op] + prev[..MaxOperations - 1]
  {
    var r := Prepended(prev, op);
    assert forall i :: 1 <= i < |r| ==> r[i] == prev[..MaxOperations - 1][i - 1];
  }

  /** The list after the operations in `arrivals` were added one after the
      other, starting from `prev`. */
  function Replay(prev: seq<Operation>, arrivals: seq<Operation>): seq<Operation>
    decreases |arrivals|
  {
    if arrivals == [] then prev
    else Prepended(Replay(prev, arrivals[..|arrivals| - 1]), arrivals[|arrivals| - 1])
  }

  function Reversed(s: seq<Operation>): (r: seq<Operation>)
    ensures |r| == |s|
    ensures forall i :: 0 <= i < |s| ==> r[i] == s[|s| - 1 - i]
  {
    if s == [] then [] else [s[|s| - 1]] + Reversed(s[..|s| - 1])
  }

  /** Starting from an empty list, the list always holds the most recent
      arrivals, newest first, at most ten of them. */
  lemma {:induction false} ReplayKeepsNewest(arrivals: seq<Operation>)
    ensures var n := if |arrivals| < MaxOperations then |arrivals| else MaxOperations;
      Replay([], arrivals) == Reversed(arrivals)[..n]
  {
    if arrivals != [] {
      var init := arrivals[..|arrivals| - 1];
      ReplayKeepsNewest(init);
      var r := Replay([], arrivals);
      var n := if |arrivals| < MaxOperations then |arrivals| else MaxOperations;
      assert |r| == n;
      forall i | 0 <= i < n
        ensures r[i] == Reversed(arrivals)[i]
      {
        if i > 0 {
          assert r[i] == Replay([], init)[i - 1];
          assert init[|init| - 1 - (i - 1)] == arrivals[|arrivals| - 1 - i];
        }
      }
    }
  }

  // ---------------------------------------------------------------------
  // The record an operation announces

  /** `addOperationToHistory(type, fileName)`: the clock is read twice, once
      for the id (as a decimal string) and once for the timestamp; the two
      readings are parameters. */
  function NewOperation(kind: OperationType, fileName: string, idClock: nat, stampClock: nat): (op: Operation)
    ensures op.kind == kind && op.fileName == fileName && op.timestamp == stampClock
    ensures op.id == DecimalString(idClock)
  {
    Operation(DecimalString(idClock), kind, fileName, stampClock)
  }

  /** Operations announced at different clock readings have different ids. */
  lemma NewOperationIdsDistinct(a: OperationType, fa: string, ca: nat, sa: nat, b: OperationType, fb: string, cb: nat, sb: nat)
    ensures NewOperation(a, fa, ca, sa).id == NewOperation(b, fb, cb, sb).id <==> ca == cb
  {
    DecimalStringInjective(ca, cb);
  }

  // ---------------------------------------------------------------------
  // formatTime

  /** What `formatTime` decides: the branch taken and the number it shows. */
  datatype Elapsed = JustNow | MinutesAgo(minutes: nat) | HoursAgo(hours: nat) | DaysAgo(days: nat)

  const MsPerMinute: nat := 60000
  const MsPerHour: nat := 3600000
  const MsPerDay: nat := 86400000

  /** The branches of `formatTime` for a difference of `diff` milliseconds:
      each count is the floor of the division, and each unit covers exactly
      one range of differences (a negative difference is "just now"). */
  function ElapsedSince(diff: int): (e: Elapsed)
    ensures e.JustNow? <==> diff < MsPerMinute
    ensures e.MinutesAgo? <==> MsPerMinute <= diff < MsPerHour
    ensures e.HoursAgo? <==> MsPerHour <= diff < MsPerDay
    ensures e.DaysAgo? <==> MsPerDay <= diff
    ensures e.MinutesAgo? ==> 1 <= e.minutes < 60 && e.minutes * MsPerMinute <= diff < (e.minutes + 1) * MsPerMinute
    ensures e.HoursAgo? ==> 1 <= e.hours < 24 && e.hours * MsPerHour <= diff < (e.hours + 1) * MsPerHour
    ensures e.DaysAgo? ==> 1 <= e.days && e.days * MsPerDay <= diff < (e.days + 1) * MsPerDay
  {
    var minutes := diff / MsPerMinute;
    var hours := diff / MsPerHour;
    var days := diff / MsPerDay;
    if minutes < 1 then JustNow
    else if minutes < 60 then MinutesAgo(minutes)
    else if hours < 24 then HoursAgo(hours)
    else DaysAgo(days)
  }

  /** The unit of an elapsed time, smallest first. */
  function Rank(e: Elapsed): nat {
    match e
    case JustNow => 0
    case MinutesAgo(_) => 1
    case HoursAgo(_) => 2
    case DaysAgo(_) => 3
  }

  /** A later moment never shows a smaller unit, nor a smaller count in the
      same unit. */
  lemma ElapsedMonotone(d1: int, d2: int)
    requires d1 <= d2
    ensures Rank(ElapsedSince(d1)) <= Rank(ElapsedSince(d2))
    ensures ElapsedSince(d1).MinutesAgo? && ElapsedSince(d2).MinutesAgo? ==> ElapsedSince(d1).minutes <= ElapsedSince(d2).minutes
    ensures ElapsedSince(d1).HoursAgo? && ElapsedSince(d2).HoursAgo? ==> ElapsedSince(d1).hours <= ElapsedSince(d2).hours
    ensures ElapsedSince(d1).DaysAgo? && ElapsedSince(d2).DaysAgo? ==> ElapsedSince(d1).days <= ElapsedSince(d2).days
  {
  }

  /** `formatTime(timestamp)` at clock reading `now`. */
  function FormatTime(now: int, timestamp: int): (r: string)
    ensures |r| >= 1 && (r == "Just now" || '0' <= r[0] <= '9')
    ensures now - timestamp < MsPerMinute ==> r == "Just now"
    ensures MsPerMinute <= now - timestamp < MsPerHour ==> r == DecimalString((now - timestamp) / MsPerMinute) + "m ago"
    ensures MsPerHour <= now - timestamp < MsPerDay ==> r == DecimalString((now - timestamp) / MsPerHour) + "h ago"
    ensures MsPerDay <= now - timestamp ==> r == DecimalString((now - timestamp) / MsPerDay) + "d ago"
  {
    match ElapsedSince(now - timestamp)
    case JustNow => "Just now"
    case MinutesAgo(m) => DecimalString(m) + "m ago"
    case HoursAgo(h) => DecimalString(h) + "h ago"
    case DaysAgo(d) => DecimalString(d) + "d ago"
  }

  /** "Just now" is shown exactly for differences below one minute,
      including negative ones. */
  lemma JustNowIff(now: int, timestamp: int)
    ensures FormatTime(now, timestamp) == "Just now" <==> now - timestamp < MsPerMinute
  {
    var r := FormatTime(now, timestamp);
    if now - timestamp >= MsPerMinute {
      assert '0' <= r[0] <= '9';
      assert r != "Just now";
    }
  }

  // ---------------------------------------------------------------------
  // The component

  /** One line of the open panel: the badge, the file name, the relative time. */
  datatype Row = Row(badge: string, fileName: string, time: string)

  function EntryRow(op: Operation, now: int): (row: Row)
    ensures row.badge == "Encrypted" <==> op.kind == Encrypt
    ensures row.badge == "Decrypted" <==> op.kind == Decrypt
    ensures row.fileName == op.fileName && row.time == FormatTime(now, op.timestamp)
  {
    Row(if op.kind == Encrypt then "Encrypted" else "Decrypted", op.fileName, FormatTime(now, op.timestamp))
  }

  class History {
    var operations: seq<Operation>
    var isOpen: bool

    /** Mounting: an empty, closed list. */
    constructor ()
      ensures operations == [] && !isOpen
    {
      operations, isOpen := [], false;
    }

    /** The `new-operation` listener. */
    method Add(op: Operation)
      modifies this
      ensures operations == Prepended(old(operations), op)
      ensures |operations| <= MaxOperations
      ensures isOpen == old(isOpen)
    {
      operations := Prepended(operations, op);
    }

    /** `clearHistory`. */
    method Clear()
      modifies this
      ensures operations == [] && isOpen == old(isOpen)
    {
      operations := [];
    }

    /** The history button's `onClick`. */
    method Toggle()
      modifies this
      ensures isOpen == !old(isOpen) && operations == old(operations)
    {
      isOpen := !isOpen;
    }

    /** What the component renders at clock reading `now`: nothing (`null`)
        exactly when the list is empty; otherwise the button, with one row per
        operation, in list order, when the panel is open. */
    function Render(now: int): (r: Option<seq<Row>>)
      reads this
      ensures r.None? <==> operations == []
      ensures r.Some? ==> |r.value| == (if isOpen then |operations| else 0)
      ensures r.Some? && isOpen ==> forall i :: 0 <= i < |operations| ==> r.value[i] == EntryRow(operations[i], now)
    {
      if operations == [] then None
      else if isOpen then Some(seq(|operations|, i requires 0 <= i < |operations| reads this => EntryRow(operations[i], now)))
      else Some([])
    }
  }
}
