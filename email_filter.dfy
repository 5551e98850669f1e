/** The filtering half of the List page's CSV import (`processCSV` in List.jsx): one pass over
    the parsed rows that routes each row to exactly one of three outputs. A row whose lower-cased
    email is on the blocked list is reported as blocked; otherwise a row whose lower-cased email
    was already kept is reported as a duplicate; otherwise the row is kept. */
module EmailFilter {
  import opened Base
  import opened Text
  import opened Records

  /** `staticBlockedEmails`. */
  const StaticBlockedEmails: seq<string> :=
    ["Sophie_DuBuque67@yahoo.com", "Elias.Reichel@gmail.com", "ivian.Schimmel85@yahoo.com"]

  /** `new Set(list.map(e => e.toLowerCase()))`. */
  function BlockedSet(list: seq<string>): (r: set<string>)
    ensures forall k :: 0 <= k < |list| ==> ToLower(list[k]) in r
    ensures forall e :: e in r ==> exists k :: 0 <= k < |list| && ToLower(list[k]) == e
  {
    set k | 0 <= k < |list| :: ToLower(list[k])
  }

  /** `row[headers[emailIdx]]`. Every parsed row has the email column (Csv.ParsedRows), so the
      empty string never stands in for a missing value in the pipeline. */
  function RawEmail(row: Record, key: string): string {
    Get(row, key).GetOr("")
  }

  /** `rawEmail.toLowerCase()`. */
  function Normalized(row: Record, key: string): string {
    ToLower(RawEmail(row, key))
  }

  datatype Verdict = Blocked | Duplicate | Retained

  /** Where row `i` belongs, decided from the rows before it alone: blocked when its address is
      on the blocked set, whatever came before; otherwise a duplicate when an earlier row has the
      same address ignoring case; otherwise it is the first occurrence of its address and is kept. */
  function VerdictOf(rows: seq<Record>, key: string, blocked: set<string>, i: nat): Verdict
    requires i < |rows|
  {
    if Normalized(rows[i], key) in blocked then Blocked
    else if exists j :: 0 <= j < i && Normalized(rows[j], key) == Normalized(rows[i], key) then Duplicate
    else Retained
  }

  /** The three outputs: `uniqueRows`, `duplicateEmails` and `blockedEmails`. */
  datatype Outcome = Outcome(unique: seq<Record>, duplicates: seq<string>, blocked: seq<string>)

  /** The outputs once the first `n` rows have been routed by their verdicts. */
  function Classify(rows: seq<Record>, key: string, blocked: set<string>, n: nat): Outcome
    requires n <= |rows|
  {
    if n == 0 then Outcome([], [], [])
    else
      var o := Classify(rows, key, blocked, n - 1);
      var row := rows[n - 1];
      match VerdictOf(rows, key, blocked, n - 1)
      case Blocked => o.(blocked := o.blocked + [RawEmail(row, key)])
      case Duplicate => o.(duplicates := o.duplicates + [RawEmail(row, key)])
      case Retained => o.(unique := o.unique + [row])
  }

  /** The single pass of `processCSV`, with its `seen` set of lower-cased addresses kept so far. */
  method FilterEmails(rows: seq<Record>, key: string, blockedList: seq<string>)
    returns (unique: seq<Record>, duplicates: seq<string>, blocked: seq<string>)
    ensures Outcome(unique, duplicates, blocked) == Classify(rows, key, BlockedSet(blockedList), |rows|)
  {
    var blockedSet := BlockedSet(blockedList);
    var seen: set<string> := {};
    unique, duplicates, blocked := [], [], [];
    for i := 0 to |rows|
      invariant Outcome(unique, duplicates, blocked) == Classify(rows, key, blockedSet, i)
      invariant forall e :: e in seen <==>
        e !in blockedSet && exists j :: 0 <= j < i && Normalized(rows[j], key) == e
    {
      var rawEmail := RawEmail(rows[i], key);
      var normalized := ToLower(rawEmail);
      if normalized in blockedSet {
        blocked := blocked + [rawEmail];
      } else if normalized in seen {
        duplicates := duplicates + [rawEmail];
      } else {
        seen := seen + {normalized};
        unique := unique + [rows[i]];
      }
    }
  }

  /** Every row lands in exactly one output, so the three lengths add up to the row count. */
  lemma {:induction false} ClassifySizes(rows: seq<Record>, key: string, blocked: set<string>, n: nat)
    requires n <= |rows|
    ensures var o := Classify(rows, key, blocked, n);
      |o.unique| + |o.duplicates| + |o.blocked| == n
  {
    if n > 0 {
      ClassifySizes(rows, key, blocked, n - 1);
    }
  }

  /** Every kept row is an input row whose verdict is `Retained`: `idx` gives, in increasing
      order, the input position of each kept row. */
  lemma {:induction false} ClassifyUniqueRows(rows: seq<Record>, key: string, blocked: set<string>, n: nat)
    returns (idx: seq<nat>)
    requires n <= |rows|
    ensures |idx| == |Classify(rows, key, blocked, n).unique|
    ensures forall k :: 0 <= k < |idx| ==>
      && idx[k] < n
      && Classify(rows, key, blocked, n).unique[k] == rows[idx[k]]
      && VerdictOf(rows, key, blocked, idx[k]) == Retained
    ensures forall a, b :: 0 <= a < b < |idx| ==> idx[a] < idx[b]
  {
    if n == 0 {
      idx := [];
    } else {
      var prev := ClassifyUniqueRows(rows, key, blocked, n - 1);
      if VerdictOf(rows, key, blocked, n - 1) == Retained {
        idx := prev + [n - 1];
      } else {
        idx := prev;
      }
    }
  }

  /** Every input row whose verdict is `Retained` is kept. */
  lemma {:induction false} ClassifyRetainedKept(rows: seq<Record>, key: string, blocked: set<string>, n: nat)
    requires n <= |rows|
    ensures var u := Classify(rows, key, blocked, n).unique;
      forall j :: 0 <= j < n && VerdictOf(rows, key, blocked, j) == Retained ==> rows[j] in u
  {
    if n > 0 {
      var prev := Classify(rows, key, blocked, n - 1).unique;
      var u := Classify(rows, key, blocked, n).unique;
      ClassifyRetainedKept(rows, key, blocked, n - 1);
      if VerdictOf(rows, key, blocked, n - 1) == Retained {
        assert u == prev + [rows[n - 1]];
      } else {
        assert u == prev;
      }
    }
  }

  /** The kept rows are a subsequence of the input, in input order. */
  lemma {:induction false} ClassifyUniqueInOrder(rows: seq<Record>, key: string, blocked: set<string>, n: nat)
    requires n <= |rows|
    ensures IsSubsequence(Classify(rows, key, blocked, n).unique, rows[..n])
  {
    if n > 0 {
      var u := Classify(rows, key, blocked, n - 1).unique;
      ClassifyUniqueInOrder(rows, key, blocked, n - 1);
      assert rows[..n] == rows[..n - 1] + [rows[n - 1]];
      if VerdictOf(rows, key, blocked, n - 1) == Retained {
        SubsequenceExtendBoth(u, rows[..n - 1], rows[n - 1]);
      } else {
        SubsequenceExtendRight(u, rows[..n - 1], rows[n - 1]);
      }
    }
  }

  /** The kept rows have pairwise distinct lower-cased addresses, none of them blocked. */
  lemma ClassifyUniqueDistinct(rows: seq<Record>, key: string, blocked: set<string>, n: nat)
    requires n <= |rows|
    ensures var u := Classify(rows, key, blocked, n).unique;
      forall k :: 0 <= k < |u| ==> Normalized(u[k], key) !in blocked
    ensures var u := Classify(rows, key, blocked, n).unique;
      forall a, b :: 0 <= a < b < |u| ==> Normalized(u[a], key) != Normalized(u[b], key)
  {
    var u := Classify(rows, key, blocked, n).unique;
    var idx := ClassifyUniqueRows(rows, key, blocked, n);
    forall a, b | 0 <= a < b < |u| ensures Normalized(u[a], key) != Normalized(u[b], key) {
      assert idx[a] < idx[b] && VerdictOf(rows, key, blocked, idx[b]) == Retained;
    }
  }

  /** Every address that is not blocked has an earliest row, and that row is kept. */
  lemma {:induction false} FirstOccurrenceRetained(rows: seq<Record>, key: string, blocked: set<string>, i: nat)
    returns (j: nat)
    requires i < |rows| && Normalized(rows[i], key) !in blocked
    ensures j <= i && Normalized(rows[j], key) == Normalized(rows[i], key)
    ensures VerdictOf(rows, key, blocked, j) == Retained
  {
    if VerdictOf(rows, key, blocked, i) == Retained {
      j := i;
    } else {
      var j' :| 0 <= j' < i && Normalized(rows[j'], key) == Normalized(rows[i], key);
      j := FirstOccurrenceRetained(rows, key, blocked, j');
    }
  }

  /** "First occurrence wins": every address that is not blocked is kept, in the row of its first
      occurrence, and every later row with that address is reported as a duplicate with its own
      spelling; a reported duplicate is never a blocked address. */
  lemma ClassifyFirstWins(rows: seq<Record>, key: string, blocked: set<string>)
    ensures var o := Classify(rows, key, blocked, |rows|);
      forall i :: 0 <= i < |rows| && Normalized(rows[i], key) !in blocked ==>
        exists k :: 0 <= k < |o.unique| && Normalized(o.unique[k], key) == Normalized(rows[i], key)
    ensures var o := Classify(rows, key, blocked, |rows|);
      forall i :: 0 <= i < |rows| && VerdictOf(rows, key, blocked, i) == Duplicate ==>
        RawEmail(rows[i], key) in o.duplicates
    ensures var o := Classify(rows, key, blocked, |rows|);
      forall e :: e in o.duplicates ==> ToLower(e) !in blocked
  {
    var o := Classify(rows, key, blocked, |rows|);
    ClassifyRetainedKept(rows, key, blocked, |rows|);
    forall i | 0 <= i < |rows| && Normalized(rows[i], key) !in blocked
      ensures exists k :: 0 <= k < |o.unique| && Normalized(o.unique[k], key) == Normalized(rows[i], key)
    {
      var j := FirstOccurrenceRetained(rows, key, blocked, i);
      var k :| 0 <= k < |o.unique| && o.unique[k] == rows[j];
    }
    ClassifyReports(rows, key, blocked, |rows|);
  }

  /** The positions whose verdict is `v`. */
  function HasVerdict(rows: seq<Record>, key: string, blocked: set<string>, v: Verdict): nat -> bool {
    (i: nat) => i < |rows| && VerdictOf(rows, key, blocked, i) == v
  }

  /** The address of the row at each position, as written. */
  function EmailAt(rows: seq<Record>, key: string): nat -> string {
    (i: nat) => if i < |rows| then RawEmail(rows[i], key) else ""
  }

  /** The duplicate report is the addresses of the rows judged `Duplicate`, picked in row order. */
  lemma {:induction false} DuplicatesArePicked(rows: seq<Record>, key: string, blocked: set<string>, n: nat)
    requires n <= |rows|
    ensures Classify(rows, key, blocked, n).duplicates == Pick(n, HasVerdict(rows, key, blocked, Duplicate), EmailAt(rows, key))
  {
    if n > 0 {
      DuplicatesArePicked(rows, key, blocked, n - 1);
      var isDuplicate := VerdictOf(rows, key, blocked, n - 1) == Duplicate;
      assert HasVerdict(rows, key, blocked, Duplicate)(n - 1) == isDuplicate;
      assert EmailAt(rows, key)(n - 1) == RawEmail(rows[n - 1], key);
    }
  }

  /** The blocked report is the addresses of the rows judged `Blocked`, picked in row order. */
  lemma {:induction false} BlockedArePicked(rows: seq<Record>, key: string, blocked: set<string>, n: nat)
    requires n <= |rows|
    ensures Classify(rows, key, blocked, n).blocked == Pick(n, HasVerdict(rows, key, blocked, Blocked), EmailAt(rows, key))
  {
    if n > 0 {
      BlockedArePicked(rows, key, blocked, n - 1);
      var isBlocked := VerdictOf(rows, key, blocked, n - 1) == Blocked;
      assert HasVerdict(rows, key, blocked, Blocked)(n - 1) == isBlocked;
      assert EmailAt(rows, key)(n - 1) == RawEmail(rows[n - 1], key);
    }
  }

  /** The duplicate report is exactly the rows judged `Duplicate`, repeats included: `idx`
      gives, in increasing order, the input position of each reported address, and every row
      judged `Duplicate` is among them. */
  lemma ClassifyDuplicateRows(rows: seq<Record>, key: string, blocked: set<string>, n: nat)
    returns (idx: seq<nat>)
    requires n <= |rows|
    ensures |idx| == |Classify(rows, key, blocked, n).duplicates|
    ensures forall k :: 0 <= k < |idx| ==>
      && idx[k] < n
      && Classify(rows, key, blocked, n).duplicates[k] == RawEmail(rows[idx[k]], key)
      && VerdictOf(rows, key, blocked, idx[k]) == Duplicate
    ensures forall a, b :: 0 <= a < b < |idx| ==> idx[a] < idx[b]
    ensures forall i :: 0 <= i < n && VerdictOf(rows, key, blocked, i) == Duplicate ==> i in idx
  {
    DuplicatesArePicked(rows, key, blocked, n);
    idx := PickIndices(n, HasVerdict(rows, key, blocked, Duplicate), EmailAt(rows, key));
  }

  /** The blocked report is exactly the rows judged `Blocked`, repeats included, in the same
      sense. */
  lemma ClassifyBlockedRows(rows: seq<Record>, key: string, blocked: set<string>, n: nat)
    returns (idx: seq<nat>)
    requires n <= |rows|
    ensures |idx| == |Classify(rows, key, blocked, n).blocked|
    ensures forall k :: 0 <= k < |idx| ==>
      && idx[k] < n
      && Classify(rows, key, blocked, n).blocked[k] == RawEmail(rows[idx[k]], key)
      && VerdictOf(rows, key, blocked, idx[k]) == Blocked
    ensures forall a, b :: 0 <= a < b < |idx| ==> idx[a] < idx[b]
    ensures forall i :: 0 <= i < n && VerdictOf(rows, key, blocked, i) == Blocked ==> i in idx
  {
    BlockedArePicked(rows, key, blocked, n);
    idx := PickIndices(n, HasVerdict(rows, key, blocked, Blocked), EmailAt(rows, key));
  }

  /** What the two reports hold: the duplicate report lists, with their own spelling, the rows
      whose verdict is `Duplicate`, and the blocked report those whose verdict is `Blocked`,
      repeats included. */
  lemma {:induction false} ClassifyReports(rows: seq<Record>, key: string, blocked: set<string>, n: nat)
    requires n <= |rows|
    ensures var o := Classify(rows, key, blocked, n);
      forall i :: 0 <= i < n && VerdictOf(rows, key, blocked, i) == Duplicate ==> RawEmail(rows[i], key) in o.duplicates
    ensures var o := Classify(rows, key, blocked, n);
      forall i :: 0 <= i < n && VerdictOf(rows, key, blocked, i) == Blocked ==> RawEmail(rows[i], key) in o.blocked
    ensures var o := Classify(rows, key, blocked, n);
      forall e :: e in o.duplicates ==> ToLower(e) !in blocked
    ensures var o := Classify(rows, key, blocked, n);
      forall e :: e in o.blocked ==> ToLower(e) in blocked
  {
    if n > 0 {
      var prev := Classify(rows, key, blocked, n - 1);
      var o := Classify(rows, key, blocked, n);
      var e := RawEmail(rows[n - 1], key);
      ClassifyReports(rows, key, blocked, n - 1);
      match VerdictOf(rows, key, blocked, n - 1)
      case Blocked =>
        assert o.duplicates == prev.duplicates && o.blocked == prev.blocked + [e];
      case Duplicate =>
        assert o.duplicates == prev.duplicates + [e] && o.blocked == prev.blocked;
      case Retained =>
        assert o.duplicates == prev.duplicates && o.blocked == prev.blocked;
    }
  }
}
