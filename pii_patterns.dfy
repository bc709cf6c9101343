/**
  The PII pattern table. Each regular expression of the table is written by hand as a
  recogniser `XAt(text, i)`: the end of the match that a backtracking JavaScript engine
  reports when it tries the pattern at start index `i`, or `None`. Beside each recogniser
  stands a reference predicate `XShape` that states the pattern's language directly (one
  existential choice per optional or repeated part), and lemmas tie the two together,
  including the choice the engine makes when several matches start at `i`.
*/
module PiiPatterns {
  import opened Wrappers
  import opened Text

  // ---------------------------------------------------------------- character classes

  /** The character classes the patterns use. */
  datatype CharClass =
    | Digit         // \d
    | Letter        // [a-zA-Z]
    | LocalChar     // [a-zA-Z0-9._%+-]
    | DomainChar    // [a-zA-Z0-9.-]
    | DashOrSpace   // [- ]
    | DateSep       // [\/\-\.]
    | PhoneLeadSep  // [-. (]
    | PhoneMidSep   // [-. )]
    | PhoneTailSep  // [-. ]

  predicate InClass(cls: CharClass, ch: char)
  {
    match cls
    case Digit => IsDigit(ch)
    case Letter => IsAsciiLetter(ch)
    case LocalChar => IsDigit(ch) || IsAsciiLetter(ch) || ch == '.' || ch == '_' || ch == '%' || ch == '+' || ch == '-'
    case DomainChar => IsDigit(ch) || IsAsciiLetter(ch) || ch == '.' || ch == '-'
    case DashOrSpace => ch == '-' || ch == ' '
    case DateSep => ch == '/' || ch == '-' || ch == '.'
    case PhoneLeadSep => ch == '-' || ch == '.' || ch == ' ' || ch == '('
    case PhoneMidSep => ch == '-' || ch == '.' || ch == ' ' || ch == ')'
    case PhoneTailSep => ch == '-' || ch == '.' || ch == ' '
  }

  /** Every character of `text[lo..hi]` is in class `cls`. */
  predicate AllIn(text: string, lo: nat, hi: nat, cls: CharClass)
  {
    hi <= |text| && forall k :: lo <= k < hi ==> InClass(cls, text[k])
  }

  /** Number of consecutive characters of class `cls` starting at `p` (a greedy `cls*`). */
  function Run(text: string, p: nat, cls: CharClass): (n: nat)
    ensures p + n <= |text| || (p > |text| && n == 0)
    decreases |text| - p
  {
    if p < |text| && InClass(cls, text[p]) then 1 + Run(text, p + 1, cls) else 0
  }

  /** The run is made of class characters and stops at a non-class character or the end. */
  lemma {:induction false} RunSpec(text: string, p: nat, cls: CharClass)
    ensures AllIn(text, p, p + Run(text, p, cls), cls) || Run(text, p, cls) == 0
    ensures p + Run(text, p, cls) < |text| ==> !InClass(cls, text[p + Run(text, p, cls)])
    decreases |text| - p
  {
    if p < |text| && InClass(cls, text[p]) {
      RunSpec(text, p + 1, cls);
    }
  }

  /** A block of class characters that ends at a non-class character (or the end) is exactly the run. */
  lemma {:induction false} RunExact(text: string, p: nat, cls: CharClass, n: nat)
    requires AllIn(text, p, p + n, cls)
    requires p + n == |text| || !InClass(cls, text[p + n])
    ensures Run(text, p, cls) == n
    decreases n
  {
    if n > 0 {
      RunExact(text, p + 1, cls, n - 1);
    }
  }

  /** A run is at least as long as any block of class characters it starts. */
  lemma {:induction false} RunCovers(text: string, p: nat, cls: CharClass, n: nat)
    requires AllIn(text, p, p + n, cls)
    ensures Run(text, p, cls) >= n
    decreases n
  {
    if n > 0 {
      RunCovers(text, p + 1, cls, n - 1);
    }
  }

  /** A greedy optional one-character separator `[...]?` at `p`: 1 when present, else 0. */
  function OptSep(text: string, p: nat, cls: CharClass): (n: nat)
    ensures n <= 1
    ensures n == 1 <==> p < |text| && InClass(cls, text[p])
  {
    if p < |text| && InClass(cls, text[p]) then 1 else 0
  }

  // ---------------------------------------------------------------- SSN
  // \b(?!000|666|9\d{2})\d{3}[- ]?(?!00)\d{2}[- ]?(?!0000)\d{4}\b

  /** The SSN language at `i`, with separator lengths `s1`, `s2`, ending at `e`. */
  ghost predicate SsnShape(text: string, i: nat, s1: nat, s2: nat, e: nat)
  {
    var j := i + 3 + s1;
    var k := j + 2 + s2;
    && s1 <= 1 && s2 <= 1 && e == k + 4 && e <= |text|
    && AtBoundary(text, i)
    && DigitsAt(text, i, 3) && !ZerosAt(text, i, 3) && !SixesAt(text, i) && text[i] != '9'
    && (s1 == 1 ==> InClass(DashOrSpace, text[i + 3]))
    && DigitsAt(text, j, 2) && !ZerosAt(text, j, 2)
    && (s2 == 1 ==> InClass(DashOrSpace, text[j + 2]))
    && DigitsAt(text, k, 4) && !ZerosAt(text, k, 4)
    && AtBoundary(text, e)
  }

  /** `666` at `p` */
  predicate SixesAt(text: string, p: nat)
    requires p + 3 <= |text|
  {
    text[p] == '6' && text[p + 1] == '6' && text[p + 2] == '6'
  }

  function SsnAt(text: string, i: nat): (r: Option<nat>)
    ensures r.Some? ==> i < r.value <= |text|
  {
    if !AtBoundary(text, i) || !DigitsAt(text, i, 3) then None
    else if ZerosAt(text, i, 3) || SixesAt(text, i) || text[i] == '9' then None
    else
      var j := i + 3 + OptSep(text, i + 3, DashOrSpace);
      if !DigitsAt(text, j, 2) || ZerosAt(text, j, 2) then None
      else
        var k := j + 2 + OptSep(text, j + 2, DashOrSpace);
        if !DigitsAt(text, k, 4) || ZerosAt(text, k, 4) || !AtBoundary(text, k + 4) then None
        else Some(k + 4)
  }

  /** Every SSN the recogniser reports is in the SSN language (so the exclusions hold). */
  lemma SsnAtSound(text: string, i: nat)
    ensures SsnAt(text, i).Some? ==> exists s1, s2 :: SsnShape(text, i, s1, s2, SsnAt(text, i).value)
  {
    if SsnAt(text, i).Some? {
      var s1 := OptSep(text, i + 3, DashOrSpace);
      var s2 := OptSep(text, i + 3 + s1 + 2, DashOrSpace);
      assert SsnShape(text, i, s1, s2, SsnAt(text, i).value);
    }
  }

  /** Every string of the SSN language at `i` is what the recogniser reports there: the match is unique. */
  lemma SsnAtComplete(text: string, i: nat, s1: nat, s2: nat, e: nat)
    requires SsnShape(text, i, s1, s2, e)
    ensures SsnAt(text, i) == Some(e)
  {
    assert s1 == OptSep(text, i + 3, DashOrSpace) by {
      if s1 == 0 { assert IsDigit(text[i + 3]); }
    }
    var j := i + 3 + s1;
    assert s2 == OptSep(text, j + 2, DashOrSpace) by {
      if s2 == 0 { assert IsDigit(text[j + 2]); }
    }
  }

  /** `000-00-0000` is rejected by the area exclusion; `123-45-6789` is one SSN. */
  lemma SsnExamples()
    ensures SsnAt("000-00-0000", 0) == None
    ensures SsnAt("123-45-6789", 0) == Some(11)
  {
    var bad, good := "000-00-0000", "123-45-6789";
    assert ZerosAt(bad, 0, 3);
    assert AtBoundary(good, 0) && AtBoundary(good, 11);
    assert DigitsAt(good, 0, 3) && DigitsAt(good, 4, 2) && DigitsAt(good, 7, 4);
    assert !ZerosAt(good, 0, 3) && !ZerosAt(good, 4, 2) && !ZerosAt(good, 7, 4) by {
      assert good[0] != '0' && good[4] != '0' && good[7] != '0';
    }
  }

  // ---------------------------------------------------------------- CREDIT_CARD
  // \b(?:\d{4}[- ]?){3}\d{4}\b

  /** The card language at `i`: four groups of four digits, separator lengths `s1`..`s3`, ending at `e`. */
  ghost predicate CreditCardShape(text: string, i: nat, s1: nat, s2: nat, s3: nat, e: nat)
  {
    var p1 := i + 4 + s1;
    var p2 := p1 + 4 + s2;
    var p3 := p2 + 4 + s3;
    && s1 <= 1 && s2 <= 1 && s3 <= 1 && e == p3 + 4 && e <= |text|
    && AtBoundary(text, i)
    && DigitsAt(text, i, 4) && (s1 == 1 ==> InClass(DashOrSpace, text[i + 4]))
    && DigitsAt(text, p1, 4) && (s2 == 1 ==> InClass(DashOrSpace, text[p1 + 4]))
    && DigitsAt(text, p2, 4) && (s3 == 1 ==> InClass(DashOrSpace, text[p2 + 4]))
    && DigitsAt(text, p3, 4)
    && AtBoundary(text, e)
  }

  function CreditCardAt(text: string, i: nat): (r: Option<nat>)
    ensures r.Some? ==> i < r.value <= |text|
  {
    if !AtBoundary(text, i) || !DigitsAt(text, i, 4) then None
    else
      var p1 := i + 4 + OptSep(text, i + 4, DashOrSpace);
      if !DigitsAt(text, p1, 4) then None
      else
        var p2 := p1 + 4 + OptSep(text, p1 + 4, DashOrSpace);
        if !DigitsAt(text, p2, 4) then None
        else
          var p3 := p2 + 4 + OptSep(text, p2 + 4, DashOrSpace);
          if !DigitsAt(text, p3, 4) || !AtBoundary(text, p3 + 4) then None
          else Some(p3 + 4)
  }

  lemma CreditCardAtSound(text: string, i: nat)
    ensures CreditCardAt(text, i).Some? ==>
      exists s1, s2, s3 :: CreditCardShape(text, i, s1, s2, s3, CreditCardAt(text, i).value)
  {
    if CreditCardAt(text, i).Some? {
      var s1 := OptSep(text, i + 4, DashOrSpace);
      var s2 := OptSep(text, i + 8 + s1, DashOrSpace);
      var s3 := OptSep(text, i + 12 + s1 + s2, DashOrSpace);
      assert CreditCardShape(text, i, s1, s2, s3, CreditCardAt(text, i).value);
    }
  }

  lemma CreditCardAtComplete(text: string, i: nat, s1: nat, s2: nat, s3: nat, e: nat)
    requires CreditCardShape(text, i, s1, s2, s3, e)
    ensures CreditCardAt(text, i) == Some(e)
  {
    assert s1 == OptSep(text, i + 4, DashOrSpace) by {
      if s1 == 0 { assert IsDigit(text[i + 4]); }
    }
    var p1 := i + 4 + s1;
    assert s2 == OptSep(text, p1 + 4, DashOrSpace) by {
      if s2 == 0 { assert IsDigit(text[p1 + 4]); }
    }
    var p2 := p1 + 4 + s2;
    assert s3 == OptSep(text, p2 + 4, DashOrSpace) by {
      if s3 == 0 { assert IsDigit(text[p2 + 4]); }
    }
  }

  // ---------------------------------------------------------------- IP_ADDRESS
  // \b(?:\d{1,3}\.){3}\d{1,3}\b

  /** `\d{1,3}\.` at `p`: the position after the dot. */
  function OctetDot(text: string, p: nat): (r: Option<nat>)
    ensures r.Some? ==> (p + 2 <= r.value <= p + 4 && r.value <= |text|
                         && DigitsAt(text, p, r.value - p - 1) && text[r.value - 1] == '.')
  {
    var n := Run(text, p, Digit);
    RunSpec(text, p, Digit);
    if 1 <= n <= 3 && p + n < |text| && text[p + n] == '.' then Some(p + n + 1) else None
  }

  /** A group of `n` digits that ends at a dot is read whole by `OctetDot`. */
  lemma OctetDotExact(text: string, p: nat, n: nat)
    requires 1 <= n <= 3 && DigitsAt(text, p, n) && p + n < |text| && text[p + n] == '.'
    ensures OctetDot(text, p) == Some(p + n + 1)
  {
    RunExact(text, p, Digit, n);
  }

  /** The IP language at `i`: four groups of `a`, `b`, `c`, `d` digits (each 1 to 3) joined by dots, ending at `e`. */
  ghost predicate IpAddressShape(text: string, i: nat, a: nat, b: nat, c: nat, d: nat, e: nat)
  {
    var p1 := i + a + 1;
    var p2 := p1 + b + 1;
    var p3 := p2 + c + 1;
    && 1 <= a <= 3 && 1 <= b <= 3 && 1 <= c <= 3 && 1 <= d <= 3
    && e == p3 + d && e <= |text|
    && AtBoundary(text, i)
    && DigitsAt(text, i, a) && text[i + a] == '.'
    && DigitsAt(text, p1, b) && text[p1 + b] == '.'
    && DigitsAt(text, p2, c) && text[p2 + c] == '.'
    && DigitsAt(text, p3, d)
    && AtBoundary(text, e)
  }

  function IpAddressAt(text: string, i: nat): (r: Option<nat>)
    ensures r.Some? ==> i < r.value <= |text|
  {
    if !AtBoundary(text, i) then None
    else match OctetDot(text, i)
      case None => None
      case Some(p1) => match OctetDot(text, p1)
        case None => None
        case Some(p2) => match OctetDot(text, p2)
          case None => None
          case Some(p3) => LastOctet(text, p3)
  }

  /** `\d{1,3}\b` at `p`: the end of the last group. */
  function LastOctet(text: string, p: nat): (r: Option<nat>)
    ensures r.Some? ==> (p + 1 <= r.value <= p + 3 && r.value <= |text|
                         && DigitsAt(text, p, r.value - p) && AtBoundary(text, r.value))
  {
    var d := Run(text, p, Digit);
    RunSpec(text, p, Digit);
    if 1 <= d <= 3 && AtBoundary(text, p + d) then Some(p + d) else None
  }

  lemma LastOctetExact(text: string, p: nat, d: nat)
    requires 1 <= d <= 3 && DigitsAt(text, p, d) && AtBoundary(text, p + d)
    ensures LastOctet(text, p) == Some(p + d)
  {
    assert WordAt(text, p + d - 1) by { assert IsDigit(text[p + d - 1]); }
    RunExact(text, p, Digit, d);
  }

  lemma IpAddressAtSound(text: string, i: nat)
    ensures IpAddressAt(text, i).Some? ==>
      exists a, b, c, d :: IpAddressShape(text, i, a, b, c, d, IpAddressAt(text, i).value)
  {
    if IpAddressAt(text, i).Some? {
      var p1 := OctetDot(text, i).value;
      var p2 := OctetDot(text, p1).value;
      var p3 := OctetDot(text, p2).value;
      var e := LastOctet(text, p3).value;
      assert IpAddressShape(text, i, p1 - i - 1, p2 - p1 - 1, p3 - p2 - 1, e - p3, e);
    }
  }

  /** No octet range check: any four groups of one to three digits form the (unique) match at `i`. */
  lemma IpAddressAtComplete(text: string, i: nat, a: nat, b: nat, c: nat, d: nat, e: nat)
    requires IpAddressShape(text, i, a, b, c, d, e)
    ensures IpAddressAt(text, i) == Some(e)
  {
    var p1 := i + a + 1;
    var p2 := p1 + b + 1;
    var p3 := p2 + c + 1;
    OctetDotExact(text, i, a);
    OctetDotExact(text, p1, b);
    OctetDotExact(text, p2, c);
    LastOctetExact(text, p3, d);
    assert AtBoundary(text, i);
    assert OctetDot(text, i) == Some(p1);
    assert OctetDot(text, p1) == Some(p2);
    assert OctetDot(text, p2) == Some(p3);
    assert LastOctet(text, p3) == Some(e);
  }

  // ---------------------------------------------------------------- DATE
  // \b\d{1,2}[\/\-\.]\d{1,2}[\/\-\.]\d{4}\b

  /** `\d{1,2}[\/\-\.]` at `p`: the position after the separator. */
  function DateFieldSep(text: string, p: nat): (r: Option<nat>)
    ensures r.Some? ==> (p + 2 <= r.value <= p + 3 && r.value <= |text|
                         && DigitsAt(text, p, r.value - p - 1) && InClass(DateSep, text[r.value - 1]))
  {
    var n := Run(text, p, Digit);
    RunSpec(text, p, Digit);
    if 1 <= n <= 2 && p + n < |text| && InClass(DateSep, text[p + n]) then Some(p + n + 1) else None
  }

  /** A field of `n` digits that ends at a separator is read whole by `DateFieldSep`. */
  lemma DateFieldSepExact(text: string, p: nat, n: nat)
    requires 1 <= n <= 2 && DigitsAt(text, p, n) && p + n < |text| && InClass(DateSep, text[p + n])
    ensures DateFieldSep(text, p) == Some(p + n + 1)
  {
    RunExact(text, p, Digit, n);
  }

  /** The date language at `i`: fields of `a` and `b` digits (1 or 2), each followed by a separator, then four digits. */
  ghost predicate DateShape(text: string, i: nat, a: nat, b: nat, e: nat)
  {
    var p1 := i + a + 1;
    var p2 := p1 + b + 1;
    && 1 <= a <= 2 && 1 <= b <= 2 && e == p2 + 4 && e <= |text|
    && AtBoundary(text, i)
    && DigitsAt(text, i, a) && InClass(DateSep, text[i + a])
    && DigitsAt(text, p1, b) && InClass(DateSep, text[p1 + b])
    && DigitsAt(text, p2, 4)
    && AtBoundary(text, e)
  }

  function DateAt(text: string, i: nat): (r: Option<nat>)
    ensures r.Some? ==> i < r.value <= |text|
  {
    if !AtBoundary(text, i) then None
    else match DateFieldSep(text, i)
      case None => None
      case Some(p1) => match DateFieldSep(text, p1)
        case None => None
        case Some(p2) => if DigitsAt(text, p2, 4) && AtBoundary(text, p2 + 4) then Some(p2 + 4) else None
  }

  lemma DateAtSound(text: string, i: nat)
    ensures DateAt(text, i).Some? ==> exists a, b :: DateShape(text, i, a, b, DateAt(text, i).value)
  {
    if DateAt(text, i).Some? {
      var p1 := DateFieldSep(text, i).value;
      var p2 := DateFieldSep(text, p1).value;
      assert DateShape(text, i, p1 - i - 1, p2 - p1 - 1, DateAt(text, i).value);
    }
  }

  /** No month or day check, separators chosen independently; the match at `i` is unique. */
  lemma DateAtComplete(text: string, i: nat, a: nat, b: nat, e: nat)
    requires DateShape(text, i, a, b, e)
    ensures DateAt(text, i) == Some(e)
  {
    DateFieldSepExact(text, i, a);
    DateFieldSepExact(text, i + a + 1, b);
  }

  // ---------------------------------------------------------------- EMAIL
  // [a-zA-Z0-9._%+-]+@[a-zA-Z0-9.-]+\.[a-zA-Z]{2,}

  /** A dot at `p` followed by at least two letters: where `\.[a-zA-Z]{2,}` can start. */
  predicate IsTldDot(text: string, p: nat)
  {
    p + 2 < |text| && text[p] == '.' && InClass(Letter, text[p + 1]) && InClass(Letter, text[p + 2])
  }

  /**
    The backtracking of the greedy domain part `[a-zA-Z0-9.-]+`: the largest `k` in `1..top`
    with a top-level-domain dot at `a + k`.
  */
  function TldDot(text: string, a: nat, top: nat): (r: Option<nat>)
    requires a + top < |text|
    ensures r.Some? ==> 1 <= r.value <= top && IsTldDot(text, a + r.value)
    ensures r.None? ==> forall p :: a < p <= a + top ==> !IsTldDot(text, p)
    ensures r.Some? ==> forall p :: a + r.value < p <= a + top ==> !IsTldDot(text, p)
    decreases top
  {
    if top == 0 then None
    else if IsTldDot(text, a + top) then Some(top)
    else TldDot(text, a, top - 1)
  }

  /** The domain language at `a`: domain characters `text[a..dot]`, `.`, letters up to `e`. */
  ghost predicate DomainShape(text: string, a: nat, dot: nat, e: nat)
  {
    && a < dot && dot + 3 <= e <= |text|
    && AllIn(text, a, dot, DomainChar)
    && text[dot] == '.'
    && AllIn(text, dot + 1, e, Letter)
  }

  /** The email language at `i`: local part `text[i..at]`, `@`, then the domain language. */
  ghost predicate EmailShape(text: string, i: nat, at: nat, dot: nat, e: nat)
  {
    && i < at < |text|
    && AllIn(text, i, at, LocalChar)
    && text[at] == '@'
    && DomainShape(text, at + 1, dot, e)
  }

  function EmailAt(text: string, i: nat): (r: Option<nat>)
    ensures r.Some? ==> i < r.value <= |text|
  {
    var l := Run(text, i, LocalChar);
    if l == 0 || i + l >= |text| || text[i + l] != '@' then None
    else EmailDomainEnd(text, i + l + 1)
  }

  /** The part of EMAIL after the '@' (which sits just before `a`): the end of `D+\.L{2,}`. */
  function EmailDomainEnd(text: string, a: nat): (r: Option<nat>)
    ensures r.Some? ==> a < r.value <= |text|
  {
    var m := Run(text, a, DomainChar);
    if m < 2 then None
    else match TldDot(text, a, m - 1)
      case None => None
      case Some(k) => Some(a + k + 1 + Run(text, a + k + 1, Letter))
  }

  lemma EmailDomainEndSound(text: string, a: nat)
    ensures EmailDomainEnd(text, a).Some? ==> exists dot :: DomainShape(text, a, dot, EmailDomainEnd(text, a).value)
  {
    if EmailDomainEnd(text, a).Some? {
      var m := Run(text, a, DomainChar);
      var k := TldDot(text, a, m - 1).value;
      var e := a + k + 1 + Run(text, a + k + 1, Letter);
      RunSpec(text, a, DomainChar);
      RunSpec(text, a + k + 1, Letter);
      assert AllIn(text, a, a + k, DomainChar);
      assert DomainShape(text, a, a + k, e);
    }
  }

  lemma EmailAtSound(text: string, i: nat)
    ensures EmailAt(text, i).Some? ==> exists at, dot :: EmailShape(text, i, at, dot, EmailAt(text, i).value)
  {
    if EmailAt(text, i).Some? {
      var at := i + Run(text, i, LocalChar);
      RunSpec(text, i, LocalChar);
      assert EmailAt(text, i) == EmailDomainEnd(text, at + 1);
      EmailDomainEndSound(text, at + 1);
      var dot :| DomainShape(text, at + 1, dot, EmailAt(text, i).value);
      assert EmailShape(text, i, at, dot, EmailAt(text, i).value);
    }
  }

  /** The domain part backtracks only as far as the last top-level-domain dot: it ends no earlier than any domain match. */
  lemma EmailDomainEndLongest(text: string, a: nat, dot: nat, e: nat)
    requires DomainShape(text, a, dot, e)
    ensures EmailDomainEnd(text, a).Some? && EmailDomainEnd(text, a).value >= e
  {
    var m := Run(text, a, DomainChar);
    assert m >= e - a by {
      forall p | a <= p < e ensures InClass(DomainChar, text[p]) {
        if p == dot {
        } else if p > dot {
          assert InClass(Letter, text[p]);
        }
      }
      RunCovers(text, a, DomainChar, e - a);
    }
    assert IsTldDot(text, dot);
    var t := TldDot(text, a, m - 1);
    assert t.Some? && a + t.value >= dot;
    var k := t.value;
    if a + k == dot {
      RunCovers(text, dot + 1, Letter, e - dot - 1);
    } else {
      // a later dot cannot lie inside the letters of the top-level domain
      assert text[a + k] == '.' && !InClass(Letter, text[a + k]);
      assert a + k >= e;
    }
  }

  /**
    Whenever the email language has a match at `i`, the recogniser reports one that ends no
    earlier: with `EmailAtSound`, the engine's choice is the longest match at `i`.
  */
  lemma EmailAtLongest(text: string, i: nat, at: nat, dot: nat, e: nat)
    requires EmailShape(text, i, at, dot, e)
    ensures EmailAt(text, i).Some? && EmailAt(text, i).value >= e
  {
    RunExact(text, i, LocalChar, at - i);
    assert EmailAt(text, i) == EmailDomainEnd(text, at + 1);
    EmailDomainEndLongest(text, at + 1, dot, e);
  }

  /** An email match holds exactly one `@`. */
  lemma EmailShapeOneAt(text: string, i: nat, at: nat, dot: nat, e: nat)
    requires EmailShape(text, i, at, dot, e)
    ensures Count(text[i..e], '@') == 1
    ensures IndexOf(text[i..e], '@') == at - i
  {
    var v := text[i..e];
    assert v == text[i..at] + [text[at]] + text[at + 1..e];
    assert forall p :: i <= p < at ==> text[p] != '@' by {
      forall p | i <= p < at ensures text[p] != '@' { assert InClass(LocalChar, text[p]); }
    }
    CountAbsent(text[i..at], '@');
    assert forall p :: at < p < e ==> text[p] != '@' by {
      forall p | at < p < e ensures text[p] != '@' {
        if p < dot { assert InClass(DomainChar, text[p]); } else if p > dot { assert InClass(Letter, text[p]); }
      }
    }
    CountAbsent(text[at + 1..e], '@');
    CountConcat(text[i..at], [text[at]], '@');
    CountConcat(text[i..at] + [text[at]], text[at + 1..e], '@');
    IndexOfFirst(v, '@', at - i);
  }

  // ---------------------------------------------------------------- PHONE_GENERIC
  // (?:(?:\+|00)([1-9]\d{0,2}))?[-. (]*(\d{3})[-. )]*(\d{3})[-. ]*(\d{4})

  /** The part after the optional country code, at `p`, with separator runs of lengths `s1`, `s2`, `s3`. */
  ghost predicate PhoneTailShape(text: string, p: nat, s1: nat, s2: nat, s3: nat, e: nat)
  {
    var p1 := p + s1;
    var p2 := p1 + 3 + s2;
    var p3 := p2 + 3 + s3;
    && e == p3 + 4 && e <= |text|
    && AllIn(text, p, p1, PhoneLeadSep)
    && DigitsAt(text, p1, 3)
    && AllIn(text, p1 + 3, p2, PhoneMidSep)
    && DigitsAt(text, p2, 3)
    && AllIn(text, p2 + 3, p3, PhoneTailSep)
    && DigitsAt(text, p3, 4)
  }

  function PhoneTail(text: string, p: nat): (r: Option<nat>)
    ensures r.Some? ==> p < r.value <= |text|
  {
    var p1 := p + Run(text, p, PhoneLeadSep);
    if !DigitsAt(text, p1, 3) then None
    else
      var p2 := p1 + 3 + Run(text, p1 + 3, PhoneMidSep);
      if !DigitsAt(text, p2, 3) then None
      else
        var p3 := p2 + 3 + Run(text, p2 + 3, PhoneTailSep);
        if !DigitsAt(text, p3, 4) then None else Some(p3 + 4)
  }

  lemma PhoneTailSound(text: string, p: nat)
    ensures PhoneTail(text, p).Some? ==> exists s1, s2, s3 :: PhoneTailShape(text, p, s1, s2, s3, PhoneTail(text, p).value)
  {
    if PhoneTail(text, p).Some? {
      var s1 := Run(text, p, PhoneLeadSep);
      var p1 := p + s1;
      var s2 := Run(text, p1 + 3, PhoneMidSep);
      var p2 := p1 + 3 + s2;
      var s3 := Run(text, p2 + 3, PhoneTailSep);
      RunSpec(text, p, PhoneLeadSep);
      RunSpec(text, p1 + 3, PhoneMidSep);
      RunSpec(text, p2 + 3, PhoneTailSep);
      assert PhoneTailShape(text, p, s1, s2, s3, PhoneTail(text, p).value);
    }
  }

  /** The separator runs are forced (no separator is a digit), so the tail at `p` is unique. */
  lemma PhoneTailComplete(text: string, p: nat, s1: nat, s2: nat, s3: nat, e: nat)
    requires PhoneTailShape(text, p, s1, s2, s3, e)
    ensures PhoneTail(text, p) == Some(e)
  {
    var p1 := p + s1;
    var p2 := p1 + 3 + s2;
    var p3 := p2 + 3 + s3;
    assert Run(text, p, PhoneLeadSep) == s1 by {
      assert !InClass(PhoneLeadSep, text[p1]) by { assert IsDigit(text[p1]); }
      RunExact(text, p, PhoneLeadSep, s1);
    }
    assert Run(text, p1 + 3, PhoneMidSep) == s2 by {
      assert !InClass(PhoneMidSep, text[p2]) by { assert IsDigit(text[p2]); }
      RunExact(text, p1 + 3, PhoneMidSep, s2);
    }
    assert Run(text, p2 + 3, PhoneTailSep) == s3 by {
      assert !InClass(PhoneTailSep, text[p3]) by { assert IsDigit(text[p3]); }
      RunExact(text, p2 + 3, PhoneTailSep, s3);
    }
  }

  /** `(?:\+|00)` at `i`: where the country code starts. */
  function CountryMarker(text: string, i: nat): (r: Option<nat>)
    ensures r.Some? ==> r.value == i + 1 || r.value == i + 2
  {
    if i < |text| && text[i] == '+' then Some(i + 1)
    else if i + 2 <= |text| && text[i] == '0' && text[i + 1] == '0' then Some(i + 2)
    else None
  }

  /** A country code `[1-9]\d{0,2}` spanning `c..q`, after the marker at `i`. */
  ghost predicate PhoneCodeShape(text: string, i: nat, q: nat)
  {
    && CountryMarker(text, i).Some?
    && var c := CountryMarker(text, i).value;
    && c < q <= c + 3 && q <= |text|
    && '1' <= text[c] <= '9'
    && DigitsAt(text, c + 1, q - c - 1)
  }

  /** The phone language at `i`: an optional country code ending at `q` (`q == i` without one), then the tail. */
  ghost predicate PhoneShape(text: string, i: nat, q: nat, e: nat)
  {
    && (q == i || PhoneCodeShape(text, i, q))
    && exists s1, s2, s3 :: PhoneTailShape(text, q, s1, s2, s3, e)
  }

  /** The greedy `\d{0,2}` after the first code digit: `extra` digits tried from 2 down to 0. */
  function PhoneAfterCode(text: string, d: nat, extra: nat): (r: Option<nat>)
    requires extra <= 2
    ensures r.Some? ==> d < r.value <= |text|
    decreases extra
  {
    if DigitsAt(text, d, extra) && PhoneTail(text, d + extra).Some? then PhoneTail(text, d + extra)
    else if extra == 0 then None
    else PhoneAfterCode(text, d, extra - 1)
  }

  function PhoneGenericAt(text: string, i: nat): (r: Option<nat>)
    ensures r.Some? ==> i < r.value <= |text|
  {
    var viaCode :=
      match CountryMarker(text, i)
      case None => None
      case Some(c) => if c < |text| && '1' <= text[c] <= '9' then PhoneAfterCode(text, c + 1, 2) else None;
    if viaCode.Some? then viaCode else PhoneTail(text, i)
  }

  /** `n` code digits after the first one, followed by a phone tail: one way the code group can match. */
  ghost predicate CodeDigitsFit(text: string, d: nat, n: nat)
  {
    DigitsAt(text, d, n) && PhoneTail(text, d + n).Some?
  }

  /** `PhoneAfterCode` takes the largest number of extra digits that lets the tail match, and fails only when none does. */
  lemma {:induction false} PhoneAfterCodeChoice(text: string, d: nat, extra: nat)
    requires extra <= 2
    ensures (exists n: nat :: n <= extra && CodeDigitsFit(text, d, n)) ==>
              exists n: nat :: && n <= extra && CodeDigitsFit(text, d, n)
                               && PhoneAfterCode(text, d, extra) == PhoneTail(text, d + n)
                               && forall n': nat :: n' <= extra && CodeDigitsFit(text, d, n') ==> n' <= n
    ensures (forall n: nat :: n <= extra ==> !CodeDigitsFit(text, d, n)) ==> PhoneAfterCode(text, d, extra).None?
    decreases extra
  {
    if CodeDigitsFit(text, d, extra) {
      assert PhoneAfterCode(text, d, extra) == PhoneTail(text, d + extra);
    } else if extra > 0 {
      PhoneAfterCodeChoice(text, d, extra - 1);
      assert forall n: nat :: n <= extra && CodeDigitsFit(text, d, n) ==> n <= extra - 1;
    }
  }

  /** A country code ending at `q` after which the phone tail matches. */
  ghost predicate CodeFitsAt(text: string, i: nat, q: nat)
  {
    PhoneCodeShape(text, i, q) && PhoneTail(text, q).Some?
  }

  /**
    The engine's choice at `i`: when some country code lets the rest match, the longest such
    code is taken; otherwise the number is read without a code, from `i` itself.
  */
  lemma PhoneGenericAtChoice(text: string, i: nat)
    ensures (exists q: nat :: CodeFitsAt(text, i, q)) ==>
              exists q: nat :: && CodeFitsAt(text, i, q)
                               && PhoneGenericAt(text, i) == PhoneTail(text, q)
                               && forall q': nat :: CodeFitsAt(text, i, q') ==> q' <= q
    ensures (forall q: nat :: !CodeFitsAt(text, i, q)) ==> PhoneGenericAt(text, i) == PhoneTail(text, i)
  {
    match CountryMarker(text, i)
    case None =>
    case Some(c) =>
      if c < |text| && '1' <= text[c] <= '9' {
        var d := c + 1;
        PhoneAfterCodeChoice(text, d, 2);
        forall q: nat | CodeFitsAt(text, i, q) ensures CodeDigitsFit(text, d, q - d) && q - d <= 2 {
        }
        forall n: nat | n <= 2 && CodeDigitsFit(text, d, n) ensures CodeFitsAt(text, i, d + n) {
        }
      }
  }

  /** Every match the recogniser reports belongs to the phone language. */
  lemma PhoneGenericAtSound(text: string, i: nat)
    ensures PhoneGenericAt(text, i).Some? ==> exists q: nat :: PhoneShape(text, i, q, PhoneGenericAt(text, i).value)
  {
    PhoneGenericAtChoice(text, i);
    if PhoneGenericAt(text, i).Some? {
      var e := PhoneGenericAt(text, i).value;
      if q: nat :| CodeFitsAt(text, i, q) && PhoneGenericAt(text, i) == PhoneTail(text, q) {
        PhoneTailSound(text, q);
        assert PhoneShape(text, i, q, e);
      } else {
        PhoneTailSound(text, i);
        assert PhoneShape(text, i, i, e);
      }
    }
  }

  /** Whenever the phone language has a match at `i`, the recogniser reports one. */
  lemma PhoneGenericAtComplete(text: string, i: nat, q: nat, e: nat)
    requires PhoneShape(text, i, q, e)
    ensures PhoneGenericAt(text, i).Some?
  {
    var s1: nat, s2: nat, s3: nat :| PhoneTailShape(text, q, s1, s2, s3, e);
    PhoneTailComplete(text, q, s1, s2, s3, e);
    PhoneGenericAtChoice(text, i);
    if q != i {
      assert CodeFitsAt(text, i, q);
    }
  }

  // ---------------------------------------------------------------- no digit, no '@', no match

  /** Text with neither a digit nor an `@`, which none of the six patterns can match. */
  predicate Inert(text: string)
  {
    forall k :: 0 <= k < |text| ==> !IsDigit(text[k]) && text[k] != '@'
  }

  /** A phone match holds a digit (the first of its three-digit group). */
  lemma PhoneGenericAtHasDigit(text: string, i: nat)
    ensures PhoneGenericAt(text, i).Some? ==> exists k :: 0 <= k < |text| && IsDigit(text[k])
  {
    if PhoneGenericAt(text, i).Some? {
      PhoneGenericAtSound(text, i);
      var q: nat :| PhoneShape(text, i, q, PhoneGenericAt(text, i).value);
      var s1: nat, s2: nat, s3: nat :| PhoneTailShape(text, q, s1, s2, s3, PhoneGenericAt(text, i).value);
      assert IsDigit(text[q + s1]);
    }
  }

  /** Every pattern needs a digit, except EMAIL, which needs an `@`: inert text holds no match at any start. */
  lemma InertHasNoMatch(text: string, i: nat)
    requires Inert(text)
    ensures EmailAt(text, i).None?
    ensures PhoneGenericAt(text, i).None?
    ensures SsnAt(text, i).None?
    ensures CreditCardAt(text, i).None?
    ensures IpAddressAt(text, i).None?
    ensures DateAt(text, i).None?
  {
    EmailAtSound(text, i);
    PhoneGenericAtHasDigit(text, i);
    SsnAtSound(text, i);
    CreditCardAtSound(text, i);
    IpAddressAtSound(text, i);
    DateAtSound(text, i);
  }

  // ---------------------------------------------------------------- REDACTION_MASKS

  const EmailMask := "[REDACTED_EMAIL]"
  const PhoneMask := "[REDACTED_PHONE]"
  const SsnMask := "[REDACTED_SSN]"
  const CreditCardMask := "[REDACTED_CREDIT_CARD]"
  const IpMask := "[REDACTED_IP]"
  const DateMask := "[REDACTED_DATE]"
  const DefaultMask := "[REDACTED]"
}
