/*
  The redaction half of PIIDetector (src/core/PIIDetector.ts): overlapping hits are thinned
  out greedily by start (`filterOverlaps`), and the text is rebuilt left to right with every
  kept hit replaced according to the redaction mode.
*/
module PiiRedactor {
  import opened Wrappers
  import opened Text
  import opened PiiPatterns
  import opened PiiScanner

  /** The redaction mode; `Unrecognised` is any other string a caller passes at run time. */
  datatype Mode = Replace | Mask | Fake | Unrecognised(name: string)

  /** PIIDetectionResult. */
  datatype DetectionResult = DetectionResult(detected: bool, pii: seq<PiiDetected>, redactedText: string)

  function Min(a: nat, b: nat): nat { if a <= b then a else b }

  // ---------------------------------------------------------------- replacements

  /** The placeholder of a type, from the REDACTION_MASKS table. */
  function GetPlaceholder(kind: PiiType): (r: string)
    ensures Inert(r)
  {
    match kind
    case Email => EmailMask
    case Phone => PhoneMask
    case Ssn => SsnMask
    case CreditCard => CreditCardMask
    case IpAddress => IpMask
    case Date => DateMask
  }

  /** Distinct types get distinct placeholders, and no placeholder is itself detected as PII. */
  lemma PlaceholderProperties(a: PiiType, b: PiiType)
    ensures GetPlaceholder(a) == GetPlaceholder(b) ==> a == b
    ensures DetectSpec(GetPlaceholder(a)) == []
  {
    DetectInert(GetPlaceholder(a));
    if a != b {
      assert GetPlaceholder(a)[10] != GetPlaceholder(b)[10] || |GetPlaceholder(a)| != |GetPlaceholder(b)|;
    }
  }

  /**
    `maskString`: an email with exactly one `@` keeps at most three characters of its name,
    then `***@` and the domain; anything else keeps its first two and last two characters
    when longer than four, and is all stars otherwise.
  */
  function MaskString(value: string, kind: PiiType): string
  {
    IndexOfCount(value, '@');
    if kind == Email && Count(value, '@') == 1 then
      var at := IndexOf(value, '@');
      value[..Min(3, at)] + "***@" + value[at + 1..]
    else if |value| <= 4 then Stars(|value|)
    else value[..2] + Stars(|value| - 4) + value[|value| - 2..]
  }

  /** Outside the email case the mask keeps the length and shows only the two characters at each end of a value longer than four. */
  lemma MaskStringHides(value: string, kind: PiiType)
    requires !(kind == Email && Count(value, '@') == 1)
    ensures |MaskString(value, kind)| == |value|
    ensures forall k :: 0 <= k < |value| ==>
              MaskString(value, kind)[k] == (if 4 < |value| && (k < 2 || |value| - 2 <= k) then value[k] else '*')
  {
  }

  /**
    An email keeps exactly one `@`, after which the domain is unchanged; before it stand at
    most three characters of the name and then three stars.
  */
  lemma MaskStringEmail(value: string)
    requires Count(value, '@') == 1
    ensures var at := IndexOf(value, '@');
            var r := MaskString(value, Email);
            var shown := Min(3, at);
            && at < |value|
            && |r| == shown + 3 + (|value| - at)
            && r[..shown] == value[..shown]
            && r[shown..shown + 3] == "***"
            && r[shown + 3..] == value[at..]
            && Count(r, '@') == 1
  {
    IndexOfCount(value, '@');
    var at := IndexOf(value, '@');
    var shown := Min(3, at);
    var head := value[..shown] + "***";
    var tail := value[at..];
    assert tail == "@" + value[at + 1..];
    assert MaskString(value, Email) == head + tail;
    assert forall k :: 0 <= k < |head| ==> head[k] != '@';
    CountAbsent(head, '@');
    CountFromIndexOf(value, '@');
    CountConcat(head, tail, '@');
  }

  /** A detected email always has exactly one `@`, so it is masked by the email rule. */
  lemma DetectedEmailMasked(text: string, d: PiiDetected)
    requires Reported(MatchAt, d, text) && d.kind == Email
    ensures Count(d.value, '@') == 1
  {
    EmailAtSound(text, d.start);
    var at: nat, dot: nat :| EmailShape(text, d.start, at, dot, d.end);
    EmailShapeOneAt(text, d.start, at, dot, d.end);
  }

  /** An address with a name of three characters or more keeps the first three of them and the whole domain. */
  lemma MaskEmailAddress(name: string, domain: string)
    requires |name| >= 3
    requires forall k :: 0 <= k < |name| ==> name[k] != '@'
    requires forall k :: 0 <= k < |domain| ==> domain[k] != '@'
    ensures MaskString(name + "@" + domain, Email) == name[..3] + "***@" + domain
  {
    var v := name + "@" + domain;
    assert v == name + ("@" + domain);
    IndexOfFirst(v, '@', |name|);
    assert v[|name|..] == "@" + domain;
    assert v[|name| + 1..] == domain;
    CountAbsent(name, '@');
    CountAbsent(domain, '@');
    CountConcat(name, "@" + domain, '@');
    CountConcat("@", domain, '@');
    assert Count("@", '@') == 1;
    assert Count(v, '@') == 1;
    assert v[..3] == name[..3];
  }

  /** The email example: three characters of the name stay visible. */
  lemma MaskEmailExample(name: string, domain: string)
    requires name == "john.doe" && domain == "example.com"
    ensures MaskString(name + "@" + domain, Email) == "joh***@example.com"
  {
    MaskEmailAddress(name, domain);
    assert name[..3] == "joh";
  }



  /** The generic rule on a formatted SSN: first two and last two characters stay visible. */
  lemma MaskSsnExample()
    ensures MaskString("123-45-6789", Ssn) == "12*******89"
  {
    var v := "123-45-6789";
    assert v[..2] == "12" && v[9..] == "89";
    assert Stars(7) == "*******";
  }

  /** `generateFakeData`: a fixed sample value per type. */
  function GenerateFakeData(kind: PiiType): string
  {
    match kind
    case Email => "jane.doe@example.com"
    case Phone => "555-0123"
    case Ssn => "000-00-0000"
    case CreditCard => "0000-0000-0000-0000"
    case IpAddress => "127.0.0.1"
    case Date => "01/01/2000"
  }

  /** The sample email is itself an email, matched whole: fake mode puts detectable PII back into the text. */
  lemma FakeEmailRedetected(sample: string)
    requires sample == GenerateFakeData(Email)
    ensures MatchAt(Email, sample, 0) == Some(|sample|)
  {
    assert EmailShape(sample, 0, 8, 16, 20);
    EmailAtLongest(sample, 0, 8, 16, 20);
  }

  /** The sample card number is itself a card number, matched whole. */
  lemma FakeCardRedetected()
    ensures MatchAt(CreditCard, GenerateFakeData(CreditCard), 0) == Some(|GenerateFakeData(CreditCard)|)
  {
    var card := GenerateFakeData(CreditCard);
    assert CreditCardShape(card, 0, 1, 1, 1, 19);
    CreditCardAtComplete(card, 0, 1, 1, 1, 19);
  }

  /** The sample address is itself an IP address, matched whole. */
  lemma FakeIpRedetected(sample: string)
    requires sample == GenerateFakeData(IpAddress)
    ensures MatchAt(IpAddress, sample, 0) == Some(|sample|)
  {
    assert IpAddressShape(sample, 0, 3, 1, 1, 1, 9);
    IpAddressAtComplete(sample, 0, 3, 1, 1, 1, 9);
  }

  /** The sample date is itself a date, matched whole. */
  lemma FakeDateRedetected(sample: string)
    requires sample == GenerateFakeData(Date)
    ensures MatchAt(Date, sample, 0) == Some(|sample|)
  {
    assert DateShape(sample, 0, 2, 2, 10);
    DateAtComplete(sample, 0, 2, 2, 10);
  }

  /** The sample SSN is rejected by the SSN pattern (its area number is 000). */
  lemma FakeSsnNotRedetected()
    ensures MatchAt(Ssn, GenerateFakeData(Ssn), 0).None?
  {
    SsnExamples();
  }

  /** `getReplacement`: an unrecognised mode falls through to the placeholder, like `replace`. */
  function GetReplacement(d: PiiDetected, mode: Mode): (r: string)
    ensures mode.Replace? || mode.Unrecognised? ==> Inert(r)
  {
    match mode
    case Mask => MaskString(d.value, d.kind)
    case Fake => GenerateFakeData(d.kind)
    case _ => GetPlaceholder(d.kind)
  }

  function Replacements(ms: seq<PiiDetected>, mode: Mode): (r: seq<string>)
    ensures |r| == |ms|
    ensures forall i :: 0 <= i < |ms| ==> r[i] == GetReplacement(ms[i], mode)
  {
    seq(|ms|, i requires 0 <= i < |ms| => GetReplacement(ms[i], mode))
  }

  // ---------------------------------------------------------------- filterOverlaps

  /** The greedy pass of `filterOverlaps`: keep a match iff it starts at or after the end of the last kept one. */
  function Resolve(ms: seq<PiiDetected>, lastEnd: int): seq<PiiDetected>
  {
    if ms == [] then []
    else if ms[0].start >= lastEnd then [ms[0]] + Resolve(ms[1..], ms[0].end)
    else Resolve(ms[1..], lastEnd)
  }

  /** `filterOverlaps` */
  method FilterOverlaps(matches: seq<PiiDetected>) returns (result: seq<PiiDetected>)
    ensures result == Resolve(matches, -1)
  {
    result := [];
    var lastEnd: int := -1;
    for i := 0 to |matches|
      invariant result + Resolve(matches[i..], lastEnd) == Resolve(matches, -1)
    {
      var m := matches[i];
      assert matches[i..][1..] == matches[i + 1..];
      if m.start >= lastEnd {
        result := result + [m];
        lastEnd := m.end;
      }
    }
    assert matches[|matches|..] == [];
  }

  /** `a` is `b` with some elements left out. */
  predicate IsSubseq(a: seq<PiiDetected>, b: seq<PiiDetected>)
    decreases |b|
  {
    a == [] || (b != [] && ((a[0] == b[0] && IsSubseq(a[1..], b[1..])) || IsSubseq(a, b[1..])))
  }

  /** The kept matches are some of the detected ones, in their order. */
  lemma {:induction false} ResolveSubseq(ms: seq<PiiDetected>, lastEnd: int)
    ensures IsSubseq(Resolve(ms, lastEnd), ms)
  {
    if ms != [] {
      ResolveSubseq(ms[1..], if ms[0].start >= lastEnd then ms[0].end else lastEnd);
    }
  }

  /**
    The kept matches can be spliced into `text` from `cursor` on: each starts at or after the
    end of the one before (so they do not overlap) and lies inside the text.
  */
  predicate Ordered(text: string, ms: seq<PiiDetected>, cursor: nat)
  {
    cursor <= |text| && (ms == [] || (cursor <= ms[0].start <= ms[0].end <= |text| && Ordered(text, ms[1..], ms[0].end)))
  }

  /** Matches that lie inside the text come out of the greedy pass pairwise disjoint, in order, after `lastEnd`. */
  lemma {:induction false} ResolveOrdered(text: string, ms: seq<PiiDetected>, lastEnd: int)
    requires forall i :: 0 <= i < |ms| ==> ms[i].start <= ms[i].end <= |text|
    requires lastEnd <= |text|
    ensures Ordered(text, Resolve(ms, lastEnd), if lastEnd < 0 then 0 else lastEnd)
  {
    if ms != [] {
      if ms[0].start >= lastEnd {
        ResolveOrdered(text, ms[1..], ms[0].end);
      } else {
        ResolveOrdered(text, ms[1..], lastEnd);
      }
    }
  }

  /**
    Nothing is dropped without reason: on matches sorted by start, every match is kept, or
    starts before `lastEnd`, or starts inside a kept match.
  */
  lemma {:induction false} ResolveDropsOnlyOverlaps(ms: seq<PiiDetected>, lastEnd: int)
    requires SortedByStart(ms)
    ensures forall i :: 0 <= i < |ms| ==>
              || ms[i] in Resolve(ms, lastEnd)
              || ms[i].start < lastEnd
              || exists d :: d in Resolve(ms, lastEnd) && d.start <= ms[i].start < d.end
  {
    if ms != [] {
      var rest := ms[1..];
      assert SortedByStart(rest);
      var lastEnd' := if ms[0].start >= lastEnd then ms[0].end else lastEnd;
      ResolveDropsOnlyOverlaps(rest, lastEnd');
      forall i | 1 <= i < |ms|
        ensures || ms[i] in Resolve(ms, lastEnd)
                || ms[i].start < lastEnd
                || exists d :: d in Resolve(ms, lastEnd) && d.start <= ms[i].start < d.end
      {
        assert ms[i] == rest[i - 1];
        if ms[0].start >= lastEnd && ms[i].start < ms[0].end {
          assert ms[0] in Resolve(ms, lastEnd);
        }
      }
    }
  }

  /** What is kept never starts before `lastEnd`. */
  lemma {:induction false} ResolveAfter(ms: seq<PiiDetected>, lastEnd: int)
    requires forall i :: 0 <= i < |ms| ==> ms[i].start <= ms[i].end
    ensures forall d :: d in Resolve(ms, lastEnd) ==> d.start >= lastEnd
  {
    if ms != [] {
      if ms[0].start >= lastEnd {
        ResolveAfter(ms[1..], ms[0].end);
      } else {
        ResolveAfter(ms[1..], lastEnd);
      }
    }
  }

  // ---------------------------------------------------------------- rebuilding the text

  /** The text from `cursor` on, with each match replaced by its replacement. */
  function Splice(text: string, ms: seq<PiiDetected>, reps: seq<string>, cursor: nat): string
    requires |reps| == |ms| && Ordered(text, ms, cursor)
  {
    if ms == [] then text[cursor..]
    else text[cursor..ms[0].start] + reps[0] + Splice(text, ms[1..], reps[1..], ms[0].end)
  }

  /** The values of the matches. */
  function Values(ms: seq<PiiDetected>): (r: seq<string>)
    ensures |r| == |ms|
    ensures forall i :: 0 <= i < |ms| ==> r[i] == ms[i].value
  {
    seq(|ms|, i requires 0 <= i < |ms| => ms[i].value)
  }

  /** Putting each match's own value back gives the text unchanged: only matched spans are ever rewritten. */
  lemma {:induction false} SpliceRoundTrip(text: string, ms: seq<PiiDetected>, cursor: nat)
    requires Ordered(text, ms, cursor)
    requires forall i :: 0 <= i < |ms| ==> ms[i].start <= ms[i].end <= |text| && ms[i].value == text[ms[i].start..ms[i].end]
    ensures Splice(text, ms, Values(ms), cursor) == text[cursor..]
  {
    if ms != [] {
      var m := ms[0];
      assert Values(ms)[1..] == Values(ms[1..]);
      SpliceRoundTrip(text, ms[1..], m.end);
      assert text[cursor..] == text[cursor..m.start] + text[m.start..m.end] + text[m.end..];
    }
  }

  /** Total length of the strings. */
  function TotalLength(ss: seq<string>): nat
  {
    if ss == [] then 0 else |ss[0]| + TotalLength(ss[1..])
  }

  /** Total length of the matched spans. */
  function Covered(ms: seq<PiiDetected>): int
  {
    if ms == [] then 0 else ms[0].end - ms[0].start + Covered(ms[1..])
  }

  /** The result is the text with every matched span's length traded for its replacement's. */
  lemma {:induction false} SpliceLength(text: string, ms: seq<PiiDetected>, reps: seq<string>, cursor: nat)
    requires |reps| == |ms| && Ordered(text, ms, cursor)
    ensures |Splice(text, ms, reps, cursor)| == |text| - cursor - Covered(ms) + TotalLength(reps)
  {
    if ms != [] {
      SpliceLength(text, ms[1..], reps[1..], ms[0].end);
    }
  }

  /** The `i`-th stretch of untouched text: the one before match `i`, or after the last match when `i == |ms|`. */
  function Gap(text: string, ms: seq<PiiDetected>, cursor: nat, i: nat): string
    requires Ordered(text, ms, cursor) && i <= |ms|
    decreases i
  {
    if i == 0 then text[cursor..if ms == [] then |text| else ms[0].start]
    else Gap(text, ms[1..], ms[0].end, i - 1)
  }

  /** Where the `i`-th stretch of untouched text begins in the result. */
  function GapOffset(text: string, ms: seq<PiiDetected>, reps: seq<string>, cursor: nat, i: nat): nat
    requires |reps| == |ms| && Ordered(text, ms, cursor) && i <= |ms|
    decreases i
  {
    if i == 0 then 0
    else (ms[0].start - cursor) + |reps[0]| + GapOffset(text, ms[1..], reps[1..], ms[0].end, i - 1)
  }

  /**
    The result is the untouched stretches and the replacements, alternating and in order:
    stretch `i` appears unchanged at its offset, replacement `i` right after it, and stretch
    `i + 1` right after that.
  */
  lemma {:induction false} SpliceKeepsGaps(text: string, ms: seq<PiiDetected>, reps: seq<string>, cursor: nat, i: nat)
    requires |reps| == |ms| && Ordered(text, ms, cursor) && i <= |ms|
    ensures OccursAt(Splice(text, ms, reps, cursor), Gap(text, ms, cursor, i), GapOffset(text, ms, reps, cursor, i))
    ensures i < |ms| ==>
              && OccursAt(Splice(text, ms, reps, cursor), reps[i], GapOffset(text, ms, reps, cursor, i) + |Gap(text, ms, cursor, i)|)
              && GapOffset(text, ms, reps, cursor, i + 1)
                 == GapOffset(text, ms, reps, cursor, i) + |Gap(text, ms, cursor, i)| + |reps[i]|
    decreases i
  {
    if ms != [] {
      var head := text[cursor..ms[0].start] + reps[0];
      var rest := Splice(text, ms[1..], reps[1..], ms[0].end);
      assert Splice(text, ms, reps, cursor) == head + rest;
      if i == 0 {
        assert (head + rest)[..|head|] == head;
      } else {
        SpliceKeepsGaps(text, ms[1..], reps[1..], ms[0].end, i - 1);
        OccursAtShift(head, rest, Gap(text, ms, cursor, i), GapOffset(text, ms[1..], reps[1..], ms[0].end, i - 1));
        if i < |ms| {
          OccursAtShift(head, rest, reps[i], GapOffset(text, ms[1..], reps[1..], ms[0].end, i - 1) + |Gap(text, ms, cursor, i)|);
        }
      }
    }
  }

  // ---------------------------------------------------------------- redact

  /** What `redact` returns. */
  function RedactSpec(text: string, mode: Mode): DetectionResult
  {
    var found := DetectSpec(text);
    if found == [] then DetectionResult(false, [], text)
    else
      var kept := Resolve(found, -1);
      DetectedOrdered(text);
      DetectionResult(true, kept, Splice(text, kept, Replacements(kept, mode), 0))
  }

  /** The kept matches of `detect`'s results can be spliced into the text. */
  lemma DetectedOrdered(text: string)
    ensures Ordered(text, Resolve(DetectSpec(text), -1), 0)
  {
    DetectSorted(MatchAt, text);
    var found := DetectSpec(text);
    assert forall i :: 0 <= i < |found| ==> found[i] in found;
    ResolveOrdered(text, found, -1);
  }

  /** The rebuilding loop of `redact`: the text between kept matches as it is, each kept match replaced. */
  method Render(text: string, validMatches: seq<PiiDetected>, mode: Mode) returns (newString: string)
    requires Ordered(text, validMatches, 0)
    ensures newString == Splice(text, validMatches, Replacements(validMatches, mode), 0)
  {
    ghost var reps := Replacements(validMatches, mode);
    var lastIndex: nat := 0;
    newString := "";
    for i := 0 to |validMatches|
      invariant Ordered(text, validMatches[i..], lastIndex)
      invariant newString + Splice(text, validMatches[i..], reps[i..], lastIndex) == Splice(text, validMatches, reps, 0)
    {
      var m := validMatches[i];
      assert validMatches[i..][1..] == validMatches[i + 1..];
      assert reps[i..][1..] == reps[i + 1..];
      newString := newString + text[lastIndex..m.start];
      newString := newString + GetReplacement(m, mode);
      lastIndex := m.end;
    }
    newString := newString + text[lastIndex..];
  }

  /** `redact` */
  method Redact(text: string, mode: Mode) returns (r: DetectionResult)
    ensures r == RedactSpec(text, mode)
    ensures r.detected <==> r.pii != []
  {
    var found := Detect(text);
    if |found| == 0 {
      return DetectionResult(false, [], text);
    }
    var validMatches := FilterOverlaps(found);
    DetectedOrdered(text);
    var newString := Render(text, validMatches, mode);
    assert validMatches == [found[0]] + Resolve(found[1..], found[0].end);
    return DetectionResult(true, validMatches, newString);
  }


  /** Text without a digit or an `@` comes back untouched and flagged clean. */
  lemma RedactInert(text: string, mode: Mode)
    requires Inert(text)
    ensures RedactSpec(text, mode) == DetectionResult(false, [], text)
  {
    DetectInert(text);
  }

  /** When something is detected, the first match (by start) is always kept. */
  lemma RedactKeepsFirst(text: string, mode: Mode)
    requires DetectSpec(text) != []
    ensures RedactSpec(text, mode).detected
    ensures RedactSpec(text, mode).pii[0] == DetectSpec(text)[0]
  {
  }

  /** A match of a pattern at the very start of the text is among `detect`'s results. */
  lemma DetectHasMatchAt0(text: string, kind: PiiType, e: nat)
    requires MatchAt(kind, text, 0) == Some(e)
    ensures PiiDetected(kind, text[..e], 0, e) in DetectSpec(text)
  {
    var found := DetectWith(MatchAt, text);
    assert found == DetectSpec(text);
    DetectSorted(MatchAt, text);
    DetectCovers(MatchAt, text);
    var d :| d in found && d.kind == kind && d.start <= 0 < d.end;
    assert Reported(MatchAt, d, text);
    assert d.start == 0 && MatchAt(kind, text, 0) == Some(d.end);
    assert d == PiiDetected(kind, text[..e], 0, e);
  }

  /** When no pattern earlier in the table than `kind` matches at 0, `kind`'s match at 0 heads `detect`'s results. */
  lemma DetectHeadAt0(text: string, kind: PiiType, e: nat)
    requires MatchAt(kind, text, 0) == Some(e)
    requires forall k :: Rank(k) < Rank(kind) ==> MatchAt(k, text, 0).None?
    ensures DetectSpec(text) != [] && DetectSpec(text)[0] == PiiDetected(kind, text[..e], 0, e)
  {
    var found := DetectWith(MatchAt, text);
    assert found == DetectSpec(text);
    var a := PiiDetected(kind, text[..e], 0, e);
    DetectHasMatchAt0(text, kind, e);
    DetectSorted(MatchAt, text);
    DetectTies(MatchAt, text);
    var ia :| 0 <= ia < |found| && found[ia] == a;
    var f := found[0];
    assert f in found;
    assert Reported(MatchAt, f, text);
    assert f.start == 0 by {
      assert f.start <= found[ia].start;
    }
    HeadLowestRank(found, ia);
    assert MatchAt(f.kind, text, 0).Some?;
    assert f.kind == kind by {
      assert Rank(f.kind) == Rank(kind);
    }
  }

  /** In a list sorted by start whose ties come in table order, the head has the lowest type among those starting at 0. */
  lemma HeadLowestRank(s: seq<PiiDetected>, i: nat)
    requires SortedByStart(s) && TiesInTableOrder(s)
    requires i < |s| && s[i].start == 0
    ensures Rank(s[0].kind) <= Rank(s[i].kind)
  {
    if i > 0 {
      assert s[0].start <= s[i].start;
    }
  }

  /**
    `filterOverlaps` keeps the first match by start, not the longest: when two patterns match
    at the start of the text, the one earlier in the table is kept (if none before it matches
    there) and the other is dropped, however much longer it is.
  */
  lemma TieAt0KeepsTableOrder(text: string, k1: PiiType, e1: nat, k2: PiiType, e2: nat)
    requires MatchAt(k1, text, 0) == Some(e1) && MatchAt(k2, text, 0) == Some(e2)
    requires Rank(k1) < Rank(k2)
    requires forall k :: Rank(k) < Rank(k1) ==> MatchAt(k, text, 0).None?
    ensures PiiDetected(k1, text[..e1], 0, e1) in Resolve(DetectSpec(text), -1)
    ensures PiiDetected(k2, text[..e2], 0, e2) in DetectSpec(text)
    ensures PiiDetected(k2, text[..e2], 0, e2) !in Resolve(DetectSpec(text), -1)
  {
    var found := DetectSpec(text);
    var a := PiiDetected(k1, text[..e1], 0, e1);
    var b := PiiDetected(k2, text[..e2], 0, e2);
    DetectHeadAt0(text, k1, e1);
    DetectHasMatchAt0(text, k2, e2);
    DetectSorted(MatchAt, text);
    var rest := found[1..];
    assert found == [a] + rest;
    assert b in rest;
    assert Resolve(found, -1) == [a] + Resolve(rest, e1);
    assert forall i :: 0 <= i < |rest| ==> rest[i].start <= rest[i].end by {
      forall i | 0 <= i < |rest| ensures rest[i].start <= rest[i].end {
        assert rest[i] in found;
      }
    }
    ResolveAfter(rest, e1);
  }

  /** The sixteen-digit card number: the phone pattern matches its first ten digits, the card pattern all of it, and no email starts there. */
  lemma CardNumberMatches(t: string)
    requires t == "1234567890123456"
    ensures MatchAt(Phone, t, 0) == Some(10) && MatchAt(CreditCard, t, 0) == Some(16)
    ensures forall k :: Rank(k) < Rank(Phone) ==> MatchAt(k, t, 0).None?
  {
    assert PhoneTailShape(t, 0, 0, 0, 0, 10);
    PhoneTailComplete(t, 0, 0, 0, 0, 10);
    assert CreditCardShape(t, 0, 0, 0, 0, 16);
    CreditCardAtComplete(t, 0, 0, 0, 0, 16);
    RunExact(t, 0, LocalChar, 16);
  }

  /**
    So the card number is redacted as a phone number: the kept match at 0 covers ten of the
    sixteen digits and the card match covering all of them is dropped.
  */
  lemma CardNumberKeptAsPhone(t: string)
    requires t == "1234567890123456"
    ensures PiiDetected(Phone, t[..10], 0, 10) in Resolve(DetectSpec(t), -1)
    ensures PiiDetected(CreditCard, t[..16], 0, 16) !in Resolve(DetectSpec(t), -1)
  {
    CardNumberMatches(t);
    TieAt0KeepsTableOrder(t, Phone, 10, CreditCard, 16);
  }
}
