/**
  The rules engine: a set of lower-cased blocked words and a table of named patterns,
  checked against a text. A JavaScript `Set` and `Map` iterate in insertion order, so the
  words and the pattern names are kept as sequences without repetitions, in the order they
  were first added; the patterns themselves are a map from name to pattern.
*/
module Rules {
  import opened Text

  /** A pattern's `test`, taken as a pure predicate on the text. */
  type Pattern = string -> bool

  const BlockedTag := "Blocked word: "
  const PatternTag := "Pattern match: "

  /** No element occurs twice. */
  predicate Distinct(s: seq<string>)
  {
    forall i, j :: 0 <= i < j < |s| ==> s[i] != s[j]
  }

  /** `s` already in lower case. */
  predicate IsLower(s: string)
  {
    ToLower(s) == s
  }

  lemma ToLowerIdempotent(s: string)
    ensures IsLower(ToLower(s))
  {
  }

  /** `Set.add` / the key order of `Map.set`: a new element goes at the end, a present one stays where it is. */
  function Add(s: seq<string>, x: string): seq<string>
  {
    if x in s then s else s + [x]
  }

  /** The words after `words.forEach(word => set.add(word.toLowerCase()))`. */
  function AddAll(s: seq<string>, words: seq<string>): seq<string>
    decreases |words|
  {
    if words == [] then s
    else Add(AddAll(s, words[..|words| - 1]), ToLower(words[|words| - 1]))
  }

  /** The words, each lower-cased. */
  function LowerAll(words: seq<string>): (r: seq<string>)
    ensures |r| == |words| && forall k :: 0 <= k < |words| ==> r[k] == ToLower(words[k])
  {
    seq(|words|, k requires 0 <= k < |words| => ToLower(words[k]))
  }

  /** After adding, a word is stored exactly when it was stored before or is one of the added words lower-cased. */
  lemma {:induction false} AddAllHas(s: seq<string>, words: seq<string>, x: string)
    ensures x in AddAll(s, words) <==> x in s || x in LowerAll(words)
    decreases |words|
  {
    if words != [] {
      var init := words[..|words| - 1];
      AddAllHas(s, init, x);
      assert LowerAll(words) == LowerAll(init) + [ToLower(words[|words| - 1])];
    }
  }

  /** Adding keeps what was stored, in place, and repeats nothing. */
  lemma {:induction false} AddAllKeeps(s: seq<string>, words: seq<string>)
    requires Distinct(s)
    ensures Distinct(AddAll(s, words))
    ensures |s| <= |AddAll(s, words)| && AddAll(s, words)[..|s|] == s
    decreases |words|
  {
    if words != [] {
      AddAllKeeps(s, words[..|words| - 1]);
    }
  }

  /** Every stored word is in lower case when the words before were. */
  lemma AddAllLower(s: seq<string>, words: seq<string>)
    requires forall x :: x in s ==> IsLower(x)
    ensures forall x :: x in AddAll(s, words) ==> IsLower(x)
  {
    forall x | x in AddAll(s, words)
      ensures IsLower(x)
    {
      AddAllHas(s, words, x);
      if x !in s {
        var k :| 0 <= k < |words| && LowerAll(words)[k] == x;
        ToLowerIdempotent(words[k]);
      }
    }
  }

  /** Adding words whose lower-cased forms are all present changes nothing. */
  lemma {:induction false} AddAllPresent(s: seq<string>, words: seq<string>)
    requires forall w :: w in words ==> ToLower(w) in s
    ensures AddAll(s, words) == s
    decreases |words|
  {
    if words != [] {
      AddAllPresent(s, words[..|words| - 1]);
    }
  }

  /** Adding the same words twice stores one copy of each: the second time changes nothing. */
  lemma AddAllIdempotent(s: seq<string>, words: seq<string>)
    ensures AddAll(AddAll(s, words), words) == AddAll(s, words)
  {
    forall w | w in words
      ensures ToLower(w) in AddAll(s, words)
    {
      AddAllHas(s, words, ToLower(w));
      var k :| 0 <= k < |words| && words[k] == w;
      assert LowerAll(words)[k] == ToLower(w);
    }
    AddAllPresent(AddAll(s, words), words);
  }

  /** The findings one `forEach` loop pushes: `tag + x` for every `x` of `items` that hits, in order. */
  function Report(tag: string, items: seq<string>, hit: string -> bool): seq<string>
    decreases |items|
  {
    if items == [] then []
    else
      var x := items[|items| - 1];
      Report(tag, items[..|items| - 1], hit) + (if hit(x) then [tag + x] else [])
  }

  /** `s` begins with `tag`. */
  predicate Tagged(s: string, tag: string)
  {
    |tag| <= |s| && s[..|tag|] == tag
  }

  lemma TagInjective(tag: string, x: string, y: string)
    ensures tag + x == tag + y <==> x == y
  {
    if tag + x == tag + y {
      assert x == (tag + x)[|tag|..] && y == (tag + y)[|tag|..];
    }
  }

  /** `tag + x` is reported exactly when `x` is an item that hits. */
  lemma {:induction false} ReportHas(tag: string, items: seq<string>, hit: string -> bool, x: string)
    ensures tag + x in Report(tag, items, hit) <==> x in items && hit(x)
    decreases |items|
  {
    if items != [] {
      var init := items[..|items| - 1];
      var last := items[|items| - 1];
      assert items == init + [last];
      ReportHas(tag, init, hit, x);
      TagInjective(tag, x, last);
    }
  }

  /** Every finding is the tag followed by an item that hits. */
  lemma {:induction false} ReportTagged(tag: string, items: seq<string>, hit: string -> bool)
    ensures forall f :: f in Report(tag, items, hit) ==> Tagged(f, tag) && f[|tag|..] in items && hit(f[|tag|..])
    decreases |items|
  {
    if items != [] {
      var init := items[..|items| - 1];
      var last := items[|items| - 1];
      assert items == init + [last];
      ReportTagged(tag, init, hit);
      assert (tag + last)[..|tag|] == tag && (tag + last)[|tag|..] == last;
    }
  }

  /** With no repeated items there is one finding per item that hits. */
  lemma {:induction false} ReportCount(tag: string, items: seq<string>, hit: string -> bool)
    requires Distinct(items)
    ensures |Report(tag, items, hit)| == |set x | x in items && hit(x)|
    decreases |items|
  {
    if items != [] {
      var init := items[..|items| - 1];
      var last := items[|items| - 1];
      assert items == init + [last];
      ReportCount(tag, init, hit);
      var before := set y | y in init && hit(y);
      assert last !in before;
      if hit(last) {
        assert (set y | y in items && hit(y)) == before + {last};
      } else {
        assert (set y | y in items && hit(y)) == before;
      }
    }
  }

  /** Nothing is reported exactly when no item hits. */
  lemma {:induction false} ReportEmpty(tag: string, items: seq<string>, hit: string -> bool)
    ensures Report(tag, items, hit) == [] <==> forall x :: x in items ==> !hit(x)
    decreases |items|
  {
    if items != [] {
      var init := items[..|items| - 1];
      assert items == init + [items[|items| - 1]];
      ReportEmpty(tag, init, hit);
    }
  }

  /** A word occurring in the text, in any case, occurs in the lower-cased text in lower case. */
  lemma IncludesLower(text: string, word: string)
    requires Includes(text, word)
    ensures Includes(ToLower(text), ToLower(word))
  {
    var i :| 0 <= i <= |text| && OccursAt(text, word, i);
    assert ToLower(text)[i..i + |word|] == ToLower(word);
    assert OccursAt(ToLower(text), ToLower(word), i);
  }

  /** The blocked-word test: the word occurs in the lower-cased text. */
  function WordFound(lower: string): string -> bool
  {
    w => Includes(lower, w)
  }

  /** The pattern test: the named pattern accepts the text. */
  function PatternFires(patterns: map<string, Pattern>, text: string): string -> bool
  {
    n => n in patterns && patterns[n](text)
  }

  /** What `check` returns in `matches`: blocked-word findings first, then pattern findings. */
  function Findings(words: seq<string>, names: seq<string>, patterns: map<string, Pattern>, text: string): seq<string>
  {
    Report(BlockedTag, words, WordFound(ToLower(text))) + Report(PatternTag, names, PatternFires(patterns, text))
  }

  /** A blocked-word finding names a stored word found in the lower-cased text, and a pattern finding a pattern that fires. */
  lemma FindingsHas(words: seq<string>, names: seq<string>, patterns: map<string, Pattern>, text: string, x: string)
    ensures BlockedTag + x in Findings(words, names, patterns, text) <==> x in words && Includes(ToLower(text), x)
    ensures PatternTag + x in Findings(words, names, patterns, text) <==> x in names && x in patterns && patterns[x](text)
  {
    var b := Report(BlockedTag, words, WordFound(ToLower(text)));
    var p := Report(PatternTag, names, PatternFires(patterns, text));
    ReportHas(BlockedTag, words, WordFound(ToLower(text)), x);
    ReportHas(PatternTag, names, PatternFires(patterns, text), x);
    ReportTagged(BlockedTag, words, WordFound(ToLower(text)));
    ReportTagged(PatternTag, names, PatternFires(patterns, text));
    assert (BlockedTag + x)[0] == 'B' && (PatternTag + x)[0] == 'P';
    assert BlockedTag + x !in p;
    assert PatternTag + x !in b;
  }

  /**
    With no repeated words or names, there are as many findings as words found plus patterns
    that fire, the words' findings first.
  */
  lemma FindingsOrder(words: seq<string>, names: seq<string>, patterns: map<string, Pattern>, text: string)
    requires Distinct(words) && Distinct(names)
    ensures var fs := Findings(words, names, patterns, text);
            var found := |set w | w in words && Includes(ToLower(text), w)|;
            var fired := |set n | n in names && n in patterns && patterns[n](text)|;
            && |fs| == found + fired
            && (forall k :: 0 <= k < found ==> Tagged(fs[k], BlockedTag))
            && (forall k :: found <= k < |fs| ==> Tagged(fs[k], PatternTag))
  {
    var b := Report(BlockedTag, words, WordFound(ToLower(text)));
    var p := Report(PatternTag, names, PatternFires(patterns, text));
    ReportCount(BlockedTag, words, WordFound(ToLower(text)));
    ReportCount(PatternTag, names, PatternFires(patterns, text));
    ReportTagged(BlockedTag, words, WordFound(ToLower(text)));
    ReportTagged(PatternTag, names, PatternFires(patterns, text));
    assert (set w | w in words && Includes(ToLower(text), w)) == set w | w in words && WordFound(ToLower(text))(w);
    assert (set n | n in names && n in patterns && patterns[n](text)) == set n | n in names && PatternFires(patterns, text)(n);
    var fs := b + p;
    forall k | 0 <= k < |fs|
      ensures if k < |b| then Tagged(fs[k], BlockedTag) else Tagged(fs[k], PatternTag)
    {
      if k < |b| {
        assert fs[k] == b[k] && b[k] in b;
      } else {
        assert fs[k] == p[k - |b|] && p[k - |b|] in p;
      }
    }
  }

  /** The text is flagged exactly when a stored word occurs in it, in any case, or a pattern fires. */
  lemma FindingsFlagged(words: seq<string>, names: seq<string>, patterns: map<string, Pattern>, text: string)
    ensures Findings(words, names, patterns, text) != [] <==>
              (exists w :: w in words && Includes(ToLower(text), w))
              || (exists n :: n in names && n in patterns && patterns[n](text))
  {
    ReportEmpty(BlockedTag, words, WordFound(ToLower(text)));
    ReportEmpty(PatternTag, names, PatternFires(patterns, text));
  }

  /** A word added in any case is reported for a text that contains it in any case. */
  lemma AddedWordReported(s: seq<string>, words: seq<string>, w: string, names: seq<string>, patterns: map<string, Pattern>, text: string)
    requires w in words && Includes(ToLower(text), ToLower(w))
    ensures BlockedTag + ToLower(w) in Findings(AddAll(s, words), names, patterns, text)
  {
    var k :| 0 <= k < |words| && words[k] == w;
    assert LowerAll(words)[k] == ToLower(w);
    AddAllHas(s, words, ToLower(w));
    FindingsHas(AddAll(s, words), names, patterns, text, ToLower(w));
  }

  class RulesEngine {
    /** The blocked words, lower-cased, in the order they were first added. */
    var blockedWords: seq<string>
    /** The pattern names, in the order they were first added. */
    var patternNames: seq<string>
    /** The pattern stored under each name. */
    var patterns: map<string, Pattern>

    ghost predicate Valid()
      reads this
    {
      && Distinct(blockedWords)
      && (forall w :: w in blockedWords ==> IsLower(w))
      && Distinct(patternNames)
      && (forall n :: n in patternNames <==> n in patterns)
    }

    constructor()
      ensures Valid()
      ensures blockedWords == [] && patternNames == [] && patterns == map[]
    {
      blockedWords := [];
      patternNames := [];
      patterns := map[];
    }

    /** Stores every word lower-cased; words already stored are not stored again. */
    method AddBlockedWords(words: seq<string>)
      requires Valid()
      modifies this
      ensures Valid()
      ensures blockedWords == AddAll(old(blockedWords), words)
      ensures patternNames == old(patternNames) && patterns == old(patterns)
    {
      for i := 0 to |words|
        invariant blockedWords == AddAll(old(blockedWords), words[..i])
        invariant patternNames == old(patternNames) && patterns == old(patterns)
      {
        assert words[..i + 1][..i] == words[..i];
        var w := ToLower(words[i]);
        if w !in blockedWords {
          blockedWords := blockedWords + [w];
        }
      }
      assert words[..|words|] == words;
      AddAllKeeps(old(blockedWords), words);
      AddAllLower(old(blockedWords), words);
    }

    /** Stores `pattern` under `name`, replacing what was there; a new name goes last in the order. */
    method AddPattern(pattern: Pattern, name: string)
      requires Valid()
      modifies this
      ensures Valid()
      ensures patterns == old(patterns)[name := pattern]
      ensures patternNames == Add(old(patternNames), name)
      ensures name in old(patterns) ==> patternNames == old(patternNames)
      ensures blockedWords == old(blockedWords)
    {
      patterns := patterns[name := pattern];
      if name !in patternNames {
        patternNames := patternNames + [name];
      }
    }

    /** The blocked words found in the lower-cased text, then the patterns that accept the text. */
    method Check(text: string) returns (flagged: bool, matches: seq<string>)
      requires Valid()
      ensures matches == Findings(blockedWords, patternNames, patterns, text)
      ensures flagged <==> matches != []
    {
      var findings: seq<string> := [];
      var lowerText := ToLower(text);
      for i := 0 to |blockedWords|
        invariant findings == Report(BlockedTag, blockedWords[..i], WordFound(lowerText))
      {
        assert blockedWords[..i + 1][..i] == blockedWords[..i];
        var word := blockedWords[i];
        if Includes(lowerText, word) {
          findings := findings + [BlockedTag + word];
        }
      }
      assert blockedWords[..|blockedWords|] == blockedWords;
      ghost var blocked := findings;
      for i := 0 to |patternNames|
        invariant findings == blocked + Report(PatternTag, patternNames[..i], PatternFires(patterns, text))
      {
        assert patternNames[..i + 1][..i] == patternNames[..i];
        var name := patternNames[i];
        var regex := patterns[name];
        if regex(text) {
          findings := findings + [PatternTag + name];
        }
      }
      assert patternNames[..|patternNames|] == patternNames;
      flagged := |findings| > 0;
      matches := findings;
    }
  }
}
