/*
  The detection half of PIIDetector (src/core/PIIDetector.ts): six patterns, each run over
  the text with a global regex (`exec` called until it returns null), all hits collected in
  the order of the pattern table, then sorted by start position with a stable sort.

  A global regex keeps its search position in `lastIndex`; `exec` searches from there for
  the leftmost start at which the pattern matches and moves `lastIndex` to the end of the
  match. `FirstMatchFrom` is that search; `ScanFrom` is the whole `exec` loop.
*/
module PiiScanner {
  import opened Wrappers
  import opened Text
  import opened PiiPatterns

  /** The closed PIIType union. */
  datatype PiiType = Email | Phone | Ssn | CreditCard | IpAddress | Date

  /** The patterns record, in the order its entries are listed (and iterated). */
  const Registry: seq<PiiType> := [Email, Phone, Ssn, CreditCard, IpAddress, Date]

  /** Position of a type in `Registry`. */
  function Rank(kind: PiiType): (r: nat)
    ensures r < |Registry| && Registry[r] == kind
  {
    match kind
    case Email => 0
    case Phone => 1
    case Ssn => 2
    case CreditCard => 3
    case IpAddress => 4
    case Date => 5
  }

  /** A PIIDetected record: `position` is the pair `start`, `end`. */
  datatype PiiDetected = PiiDetected(kind: PiiType, value: string, start: nat, end: nat)

  /** A match of a pattern: where it starts and where it ends. */
  datatype Found = Found(start: nat, end: nat)

  /** The end of the match of `kind`'s pattern when the engine tries start index `i`. */
  function MatchAt(kind: PiiType, text: string, i: nat): (r: Option<nat>)
    ensures r.Some? ==> i < r.value <= |text|
  {
    match kind
    case Email => EmailAt(text, i)
    case Phone => PhoneGenericAt(text, i)
    case Ssn => SsnAt(text, i)
    case CreditCard => CreditCardAt(text, i)
    case IpAddress => IpAddressAt(text, i)
    case Date => DateAt(text, i)
  }

  /** No match is empty or runs past the end of the text. */
  ghost predicate Bounded(table: (PiiType, string, nat) -> Option<nat>)
  {
    forall kind, text, i: nat :: table(kind, text, i).Some? ==> i < table(kind, text, i).value <= |text|
  }

  /**
    A pattern table: for each type, where the match of its pattern tried at a start index
    ends, if it matches there. `MatchAt` is the table of this library; the scanning below
    is stated for any table.
  */
  type PatternTable = table: (PiiType, string, nat) -> Option<nat> | Bounded(table)
    witness (kind: PiiType, text: string, i: nat) => None

  /** The search of `exec` from `from`: the leftmost start with a match (none past the end of the text). */
  function FirstMatchFrom(table: PatternTable, kind: PiiType, text: string, from: nat): (r: Option<Found>)
    ensures r.Some? ==> && from <= r.value.start < r.value.end <= |text|
                        && table(kind, text, r.value.start) == Some(r.value.end)
    decreases |text| + 1 - from
  {
    if from > |text| then None
    else match table(kind, text, from)
      case Some(e) => Some(Found(from, e))
      case None => FirstMatchFrom(table, kind, text, from + 1)
  }

  /** The search finds the leftmost start with a match, and finds nothing only when there is none. */
  lemma {:induction false} FirstMatchFromLeftmost(table: PatternTable, kind: PiiType, text: string, from: nat)
    ensures FirstMatchFrom(table, kind, text, from).Some? ==>
              forall j :: from <= j < FirstMatchFrom(table, kind, text, from).value.start ==> table(kind, text, j).None?
    ensures FirstMatchFrom(table, kind, text, from).None? ==> forall j :: from <= j ==> table(kind, text, j).None?
    decreases |text| + 1 - from
  {
    if from <= |text| && table(kind, text, from).None? {
      FirstMatchFromLeftmost(table, kind, text, from + 1);
    }
  }

  /** The record pushed for a match. */
  function Record(kind: PiiType, text: string, f: Found): (d: PiiDetected)
    requires f.start <= f.end <= |text|
    ensures d.kind == kind && d.start == f.start && d.end == f.end && d.value == text[f.start..f.end]
  {
    PiiDetected(kind, text[f.start..f.end], f.start, f.end)
  }

  /** The `exec` loop of one pattern, from search position `from`. */
  function ScanFrom(table: PatternTable, kind: PiiType, text: string, from: nat): seq<PiiDetected>
    decreases |text| + 1 - from
  {
    match FirstMatchFrom(table, kind, text, from)
    case None => []
    case Some(f) => [Record(kind, text, f)] + ScanFrom(table, kind, text, f.end)
  }

  /** One turn of the `exec` loop: the match found from `from` is recorded, and the search goes on from its end. */
  lemma ScanFromStep(table: PatternTable, kind: PiiType, text: string, from: nat, f: Found)
    requires FirstMatchFrom(table, kind, text, from) == Some(f)
    ensures from <= f.start < f.end <= |text|
    ensures ScanFrom(table, kind, text, from) == [Record(kind, text, f)] + ScanFrom(table, kind, text, f.end)
  {
  }

  /** The hits of one pattern (its `lastIndex` reset to 0 first). */
  function Scan(table: PatternTable, kind: PiiType, text: string): seq<PiiDetected>
  {
    ScanFrom(table, kind, text, 0)
  }

  /** The unsorted results: the hits of each pattern of `kinds`, one pattern after the other. */
  function Collect(table: PatternTable, kinds: seq<PiiType>, text: string): seq<PiiDetected>
  {
    if kinds == [] then [] else Collect(table, kinds[..|kinds| - 1], text) + Scan(table, kinds[|kinds| - 1], text)
  }

  // ---------------------------------------------------------------- the stable sort by start

  predicate SortedByStart(s: seq<PiiDetected>)
  {
    forall i, j :: 0 <= i < j < |s| ==> s[i].start <= s[j].start
  }

  /** Insert `x` after every element that starts no later than it. */
  function InsertByStart(s: seq<PiiDetected>, x: PiiDetected): seq<PiiDetected>
  {
    if s == [] || s[|s| - 1].start <= x.start then s + [x]
    else InsertByStart(s[..|s| - 1], x) + [s[|s| - 1]]
  }

  /** The comparator `a.start - b.start` under a stable sort. */
  function SortByStart(s: seq<PiiDetected>): seq<PiiDetected>
  {
    if s == [] then [] else InsertByStart(SortByStart(s[..|s| - 1]), s[|s| - 1])
  }

  /** Results with the same start come in the order of the pattern table, at most one per type. */
  predicate TiesInTableOrder(s: seq<PiiDetected>)
  {
    forall i, j :: 0 <= i < j < |s| && s[i].start == s[j].start ==> Rank(s[i].kind) < Rank(s[j].kind)
  }

  /** The hits of every pattern of `table`, in table order, sorted by start. */
  function DetectWith(table: PatternTable, text: string): seq<PiiDetected>
  {
    SortByStart(Collect(table, Registry, text))
  }

  /** What `detect` returns. */
  function DetectSpec(text: string): seq<PiiDetected>
  {
    DetectWith(MatchAt, text)
  }

  // ---------------------------------------------------------------- the methods

  /** One `exec` call of a global regex whose `lastIndex` is `lastIndex`. */
  method Exec(table: PatternTable, kind: PiiType, text: string, lastIndex: nat) returns (r: Option<Found>)
    ensures r == FirstMatchFrom(table, kind, text, lastIndex)
  {
    var i := lastIndex;
    while i <= |text|
      invariant lastIndex <= i
      invariant FirstMatchFrom(table, kind, text, i) == FirstMatchFrom(table, kind, text, lastIndex)
      decreases |text| + 1 - i
    {
      var m := table(kind, text, i);
      if m.Some? {
        return Some(Found(i, m.value));
      }
      i := i + 1;
    }
    return None;
  }

  /** The `while (exec)` loop of one pattern in `detect`: its hits, `lastIndex` starting at 0. */
  method ExecAll(table: PatternTable, kind: PiiType, text: string) returns (found: seq<PiiDetected>)
    ensures found == Scan(table, kind, text)
  {
    found := [];
    var lastIndex := 0;
    var done := false;
    while !done
      invariant lastIndex <= |text|
      invariant done ==> found == Scan(table, kind, text)
      invariant !done ==> found + ScanFrom(table, kind, text, lastIndex) == Scan(table, kind, text)
      decreases |text| - lastIndex, !done
    {
      var m := Exec(table, kind, text, lastIndex);
      found, lastIndex, done := Push(table, kind, text, found, lastIndex, m);
    }
  }

  /** The body of the `exec` loop: record the match `m` found from `lastIndex` and move `lastIndex` to its end, or stop. */
  method Push(table: PatternTable, kind: PiiType, text: string, found: seq<PiiDetected>, lastIndex: nat, m: Option<Found>)
    returns (found': seq<PiiDetected>, lastIndex': nat, done: bool)
    requires m == FirstMatchFrom(table, kind, text, lastIndex)
    ensures done <==> m.None?
    ensures done ==> found' == found && lastIndex' == lastIndex && ScanFrom(table, kind, text, lastIndex) == []
    ensures !done ==> lastIndex < lastIndex' <= |text|
    ensures !done ==> found' == found + [Record(kind, text, m.value)] && lastIndex' == m.value.end
    ensures !done ==> found' + ScanFrom(table, kind, text, lastIndex') == found + ScanFrom(table, kind, text, lastIndex)
  {
    if m.None? {
      return found, lastIndex, true;
    }
    var f := m.value;
    var d := Record(kind, text, f);
    ScanFromStep(table, kind, text, lastIndex, f);
    assert found + ScanFrom(table, kind, text, lastIndex) == (found + [d]) + ScanFrom(table, kind, text, f.end);
    return found + [d], f.end, false;
  }

  /** `detect`: every hit of every pattern, sorted by start. */
  method Detect(text: string) returns (results: seq<PiiDetected>)
    ensures results == DetectSpec(text)
  {
    results := [];
    for n := 0 to |Registry|
      invariant results == Collect(MatchAt, Registry[..n], text)
    {
      var found := ExecAll(MatchAt, Registry[n], text);
      assert Registry[..n + 1][..n] == Registry[..n];
      results := results + found;
    }
    assert Registry[..|Registry|] == Registry;
    results := SortByStart(results);
  }

  // ---------------------------------------------------------------- one pattern

  /** A record that describes a real match of its pattern in `text`. */
  predicate Reported(table: PatternTable, d: PiiDetected, text: string)
  {
    && d.start < d.end <= |text|
    && d.value == text[d.start..d.end]
    && table(d.kind, text, d.start) == Some(d.end)
  }

  /** Each record of a pattern's `exec` loop is a real match of that pattern, and the matches follow one another without overlapping. */
  lemma {:induction false} ScanFromSpec(table: PatternTable, kind: PiiType, text: string, from: nat)
    ensures forall d :: d in ScanFrom(table, kind, text, from) ==> d.kind == kind && from <= d.start && Reported(table, d, text)
    ensures forall i :: 0 <= i < |ScanFrom(table, kind, text, from)| - 1 ==>
              ScanFrom(table, kind, text, from)[i].end <= ScanFrom(table, kind, text, from)[i + 1].start
    decreases |text| + 1 - from
  {
    match FirstMatchFrom(table, kind, text, from)
    case None =>
    case Some(f) =>
      ScanFromSpec(table, kind, text, f.end);
      var rest := ScanFrom(table, kind, text, f.end);
      assert ScanFrom(table, kind, text, from) == [Record(kind, text, f)] + rest;
      assert rest != [] ==> rest[0] in rest;
  }

  /** Nothing is missed: every start at which the pattern matches lies inside a reported match of it. */
  lemma {:induction false} ScanFromCovers(table: PatternTable, kind: PiiType, text: string, from: nat)
    ensures forall j :: from <= j && table(kind, text, j).Some? ==>
              exists d :: d in ScanFrom(table, kind, text, from) && d.kind == kind && d.start <= j < d.end
    decreases |text| + 1 - from
  {
    FirstMatchFromLeftmost(table, kind, text, from);
    match FirstMatchFrom(table, kind, text, from)
    case None =>
    case Some(f) =>
      ScanFromCovers(table, kind, text, f.end);
      var x := Record(kind, text, f);
      assert ScanFrom(table, kind, text, from) == [x] + ScanFrom(table, kind, text, f.end);
      forall j | from <= j && table(kind, text, j).Some?
        ensures exists d :: d in ScanFrom(table, kind, text, from) && d.kind == kind && d.start <= j < d.end
      {
        if j < f.end {
          assert x in ScanFrom(table, kind, text, from);
        }
      }
  }

  // ---------------------------------------------------------------- all patterns

  /** Every unsorted result is a real match of a pattern of `kinds`. */
  lemma {:induction false} CollectSpec(table: PatternTable, kinds: seq<PiiType>, text: string)
    ensures forall d :: d in Collect(table, kinds, text) ==> d.kind in kinds && Reported(table, d, text)
  {
    if kinds != [] {
      var init := kinds[..|kinds| - 1];
      CollectSpec(table, init, text);
      ScanFromSpec(table, kinds[|kinds| - 1], text, 0);
      forall d | d in Collect(table, kinds, text) ensures d.kind in kinds && Reported(table, d, text) {
        if d in Collect(table, init, text) {
          assert d.kind in init;
        }
      }
    }
  }

  /** Every match of every pattern of `kinds` lies inside an unsorted result of the same type. */
  lemma {:induction false} CollectCovers(table: PatternTable, kinds: seq<PiiType>, text: string)
    ensures forall kind, j: nat :: kind in kinds && table(kind, text, j).Some? ==>
              exists d :: d in Collect(table, kinds, text) && d.kind == kind && d.start <= j < d.end
  {
    if kinds != [] {
      var init := kinds[..|kinds| - 1];
      var last := kinds[|kinds| - 1];
      CollectCovers(table, init, text);
      ScanFromCovers(table, last, text, 0);
      forall kind, j: nat | kind in kinds && table(kind, text, j).Some?
        ensures exists d :: d in Collect(table, kinds, text) && d.kind == kind && d.start <= j < d.end
      {
        if kind != last {
          assert kind in init;
        }
      }
    }
  }

  // ---------------------------------------------------------------- the sort

  lemma {:induction false} InsertByStartMultiset(s: seq<PiiDetected>, x: PiiDetected)
    ensures multiset(InsertByStart(s, x)) == multiset(s) + multiset{x}
    decreases |s|
  {
    if s != [] && s[|s| - 1].start > x.start {
      InsertByStartMultiset(s[..|s| - 1], x);
      assert s == s[..|s| - 1] + [s[|s| - 1]];
    }
  }

  /** Every element starts at or before `b`. */
  predicate StartsAtMost(s: seq<PiiDetected>, b: nat)
  {
    forall i :: 0 <= i < |s| ==> s[i].start <= b
  }

  lemma {:induction false} InsertByStartSorted(s: seq<PiiDetected>, x: PiiDetected)
    requires SortedByStart(s)
    ensures SortedByStart(InsertByStart(s, x))
    decreases |s|
  {
    if s != [] && s[|s| - 1].start > x.start {
      var init := s[..|s| - 1];
      var last := s[|s| - 1];
      InsertByStartSorted(init, x);
      InsertByStartMultiset(init, x);
      var t := InsertByStart(init, x);
      assert StartsAtMost(t, last.start) by {
        forall i | 0 <= i < |t| ensures t[i].start <= last.start {
          assert t[i] in multiset(t);
          assert t[i] in multiset(init) || t[i] == x;
        }
      }
    }
  }

  /** Inserting `x` after every element that starts no later than it keeps the ties in order when `x` comes last among its own. */
  lemma {:induction false} InsertByStartTies(s: seq<PiiDetected>, x: PiiDetected)
    requires TiesInTableOrder(s)
    requires forall i :: 0 <= i < |s| && s[i].start == x.start ==> Rank(s[i].kind) < Rank(x.kind)
    ensures TiesInTableOrder(InsertByStart(s, x))
    decreases |s|
  {
    if s != [] && s[|s| - 1].start > x.start {
      var init := s[..|s| - 1];
      var last := s[|s| - 1];
      InsertByStartTies(init, x);
      InsertByStartMultiset(init, x);
      var t := InsertByStart(init, x);
      assert InsertByStart(s, x) == t + [last];
      forall i | 0 <= i < |t| && t[i].start == last.start ensures Rank(t[i].kind) < Rank(last.kind) {
        assert t[i] in multiset(t);
        assert t[i] in multiset(init);
        var i' :| 0 <= i' < |init| && init[i'] == t[i];
        assert s[i'] == t[i];
      }
    }
  }

  /** The sort orders by start and keeps every element. */
  lemma {:induction false} SortByStartSpec(s: seq<PiiDetected>)
    ensures SortedByStart(SortByStart(s))
    ensures multiset(SortByStart(s)) == multiset(s)
  {
    if s != [] {
      var init := s[..|s| - 1];
      var last := s[|s| - 1];
      SortByStartSpec(init);
      InsertByStartSorted(SortByStart(init), last);
      InsertByStartMultiset(SortByStart(init), last);
      assert s == init + [last];
    }
  }

  // ---------------------------------------------------------------- ties

  /**
    The sort is stable: results with equal starts that came in table order still do. (This is
    the guarantee of `Array.prototype.sort` since ES2019.)
  */
  lemma {:induction false} SortByStartStable(s: seq<PiiDetected>)
    requires TiesInTableOrder(s)
    ensures TiesInTableOrder(SortByStart(s))
  {
    if s != [] {
      var init := s[..|s| - 1];
      var last := s[|s| - 1];
      SortByStartStable(init);
      SortByStartSpec(init);
      var t := SortByStart(init);
      forall i | 0 <= i < |t| && t[i].start == last.start ensures Rank(t[i].kind) < Rank(last.kind) {
        assert t[i] in multiset(t);
        var i' :| 0 <= i' < |init| && init[i'] == t[i];
        assert s[i'] == t[i];
      }
      InsertByStartTies(t, last);
    }
  }

  /** One pattern's `exec` loop reports strictly increasing starts. */
  lemma {:induction false} ScanFromAscending(table: PatternTable, kind: PiiType, text: string, from: nat)
    ensures forall i, j :: 0 <= i < j < |ScanFrom(table, kind, text, from)| ==>
              ScanFrom(table, kind, text, from)[i].start < ScanFrom(table, kind, text, from)[j].start
    decreases |text| + 1 - from
  {
    match FirstMatchFrom(table, kind, text, from)
    case None =>
    case Some(f) =>
      var x := Record(kind, text, f);
      var rest := ScanFrom(table, kind, text, f.end);
      ScanFromAscending(table, kind, text, f.end);
      ScanFromSpec(table, kind, text, f.end);
      assert ScanFrom(table, kind, text, from) == [x] + rest;
      assert forall j :: 0 <= j < |rest| ==> x.start < rest[j].start by {
        forall j | 0 <= j < |rest| ensures x.start < rest[j].start {
          assert rest[j] in rest;
        }
      }
  }

  /** The unsorted results of the first `n` patterns have types among the first `n` of the table. */
  lemma CollectRanks(table: PatternTable, text: string, n: nat)
    requires n <= |Registry|
    ensures forall d :: d in Collect(table, Registry[..n], text) ==> Rank(d.kind) < n
  {
    CollectSpec(table, Registry[..n], text);
    forall d | d in Collect(table, Registry[..n], text) ensures Rank(d.kind) < n {
      var j :| 0 <= j < n && Registry[j] == d.kind;
    }
  }

  /** In the unsorted results of the first `n` patterns, hits with the same start come in table order. */
  lemma {:induction false} CollectTies(table: PatternTable, text: string, n: nat)
    requires n <= |Registry|
    ensures TiesInTableOrder(Collect(table, Registry[..n], text))
  {
    if n > 0 {
      var kind := Registry[n - 1];
      var c := Collect(table, Registry[..n - 1], text);
      var sc := Scan(table, kind, text);
      assert Registry[..n][..n - 1] == Registry[..n - 1];
      assert Collect(table, Registry[..n], text) == c + sc;
      CollectTies(table, text, n - 1);
      CollectRanks(table, text, n - 1);
      ScanFromSpec(table, kind, text, 0);
      ScanFromAscending(table, kind, text, 0);
      assert Rank(kind) == n - 1;
      forall i, j | 0 <= i < |c| && 0 <= j < |sc| ensures Rank(c[i].kind) < Rank(sc[j].kind) {
        assert c[i] in c;
        assert sc[j] in sc;
      }
    }
  }

  // ---------------------------------------------------------------- detect

  /** `detect` returns the collected hits, sorted by start, each a real match of its pattern. */
  lemma DetectSorted(table: PatternTable, text: string)
    ensures SortedByStart(DetectWith(table, text))
    ensures multiset(DetectWith(table, text)) == multiset(Collect(table, Registry, text))
    ensures forall d :: d in DetectWith(table, text) ==> Reported(table, d, text)
  {
    SortByStartSpec(Collect(table, Registry, text));
    CollectSpec(table, Registry, text);
    forall d | d in DetectWith(table, text) ensures Reported(table, d, text) {
      assert d in multiset(DetectWith(table, text));
    }
  }

  /** No hit of any pattern is lost: every start where a pattern matches lies inside a result of that type. */
  lemma DetectCovers(table: PatternTable, text: string)
    ensures forall kind, j: nat :: table(kind, text, j).Some? ==>
              exists d :: d in DetectWith(table, text) && d.kind == kind && d.start <= j < d.end
  {
    var c := Collect(table, Registry, text);
    SortByStartSpec(c);
    CollectCovers(table, Registry, text);
    forall kind, j: nat | table(kind, text, j).Some?
      ensures exists d :: d in DetectWith(table, text) && d.kind == kind && d.start <= j < d.end
    {
      assert kind in Registry by { assert Registry[Rank(kind)] == kind; }
      var d :| d in c && d.kind == kind && d.start <= j < d.end;
      assert d in multiset(c);
    }
  }

  /** `detect`'s results with the same start come in the table's order, at most one per type. */
  lemma DetectTies(table: PatternTable, text: string)
    ensures TiesInTableOrder(DetectWith(table, text))
  {
    CollectTies(table, text, |Registry|);
    assert Registry[..|Registry|] == Registry;
    SortByStartStable(Collect(table, Registry, text));
  }

  /** Text with no digit and no `@` holds no PII at all. */
  lemma DetectInert(text: string)
    requires Inert(text)
    ensures DetectSpec(text) == []
  {
    forall kind, j: nat ensures MatchAt(kind, text, j).None? {
      InertHasNoMatch(text, j);
    }
    forall n | 0 <= n <= |Registry| ensures Collect(MatchAt, Registry[..n], text) == [] {
      CollectEmpty(MatchAt, text, n);
    }
    assert Registry[..|Registry|] == Registry;
  }

  lemma {:induction false} CollectEmpty(table: PatternTable, text: string, n: nat)
    requires n <= |Registry|
    requires forall kind, j: nat :: table(kind, text, j).None?
    ensures Collect(table, Registry[..n], text) == []
  {
    if n > 0 {
      assert Registry[..n][..n - 1] == Registry[..n - 1];
      CollectEmpty(table, text, n - 1);
      assert FirstMatchFrom(table, Registry[n - 1], text, 0).None?;
    }
  }
}
