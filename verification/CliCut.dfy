/** Command lines of any length: the parser cuts them to 255 characters, and what it makes of the rest. */
module CliCut {
  import opened Wrappers
  import opened CliSpec

  // ----- A cut line's words -----

  lemma {:induction false} SpacedTail(words: seq<string>, gaps: seq<string>, tail: string)
    requires |gaps| == |words|
    ensures Spaced(words, gaps, tail) == Spaced(words, gaps, "") + tail
  {
    if words != [] {
      SpacedTail(words[1..], gaps[1..], tail);
    }
  }

  /** The words of a line cut to m characters: fewer than before, or as many with the last one shortened. */
  predicate CutWords(cut: seq<string>, words: seq<string>, missing: nat) {
    |cut| < |words|
    || (|cut| == |words| > 0
        && cut[..|words| - 1] == words[..|words| - 1]
        && cut[|words| - 1] != [] && cut[|words| - 1] <= words[|words| - 1]
        && |cut[|words| - 1]| + missing == |words[|words| - 1]|)
  }

  lemma {:induction false} TokensOfCut(words: seq<string>, gaps: seq<string>, m: nat)
    requires |gaps| == |words| && GoodGaps(gaps) && AllWords(words) && m < |Spaced(words, gaps, "")|
    ensures var whole := Spaced(words, gaps, "");
      words != [] && CutWords(Tokens(whole[..m]), words, |whole| - m)
      && (|whole| - m < |words[|words| - 1]| ==> |Tokens(whole[..m])| == |words|)
  {
    hide Tokens, IsWord, IsSep;
    var g, w, rest := gaps[0], words[0], Spaced(words[1..], gaps[1..], "");
    var whole := g + w + rest;
    if m <= |g| {
      assert whole[..m] == g[..m];
      GapPrefix(g, m);
      TokensOfGap(g[..m]);
      LastIsInside(words, gaps);
    } else if m <= |g| + |w| {
      var k := m - |g|;
      assert whole[..m] == g + w[..k] + "";
      WordPrefix(w, k);
      TokensOfWord(g, w[..k], "");
      NoTokens();
      LastIsInside(words, gaps);
    } else {
      var k := m - |g| - |w|;
      assert whole[..m] == g + w + rest[..k];
      RestStarts(words, gaps);
      TokensOfWord(g, w, rest[..k]);
      TokensOfCut(words[1..], gaps[1..], k);
      CutNext(w, Tokens(rest[..k]), words, |rest| - k);
    }
  }

  lemma NoTokens()
    ensures Tokens("") == []
  {
    TokensOfGap("");
  }

  lemma GapPrefix(g: string, m: nat)
    requires IsGap(g) && m <= |g|
    ensures IsGap(g[..m])
  {
  }

  lemma WordPrefix(w: string, k: nat)
    requires IsWord(w) && 0 < k <= |w|
    ensures IsWord(w[..k])
  {
  }

  /** The rest behind the first word starts with a separator, if there is any. */
  lemma RestStarts(words: seq<string>, gaps: seq<string>)
    requires words != [] && |gaps| == |words| && GoodGaps(gaps)
    ensures var rest := Spaced(words[1..], gaps[1..], ""); rest != [] ==> IsSep(rest[0])
  {
    if |words| > 1 {
      assert gaps[1] != [] && IsSep(gaps[1][0]);
    }
  }

  /** The last word lies behind the first one, if it is another. */
  lemma {:induction false} LastIsInside(words: seq<string>, gaps: seq<string>)
    requires words != [] && |gaps| == |words|
    ensures |words| > 1 ==> |words[|words| - 1]| <= |Spaced(words[1..], gaps[1..], "")|
    ensures |words| == 1 ==> Spaced(words[1..], gaps[1..], "") == ""
  {
    if |words| > 1 {
      LastIsInside(words[1..], gaps[1..]);
    }
  }

  lemma CutNext(w: string, cut: seq<string>, words: seq<string>, missing: nat)
    requires words != [] && w == words[0] && |words| > 1 && CutWords(cut, words[1..], missing)
    ensures CutWords([w] + cut, words, missing)
  {
    if |cut| == |words| - 1 {
      var n := |words|;
      assert ([w] + cut)[..n - 1] == [w] + cut[..n - 2];
      assert words[..n - 1] == [w] + words[1..][..n - 2];
    }
  }

  // ----- A shortened last item -----

  /** Only one shortened word says what the whole one says: "--key=" without its equals sign. */
  lemma ShortenedItem(item: Item, p: string)
    requires WellFormed(item) && p != [] && p < Word(item)
    ensures Args([ClipItem(ItemOf(p))]) == Args([item]) && Positionals([ClipItem(ItemOf(p))]) == Positionals([item])
      ==> item.Assign? && item.value == "" && p == "--" + item.key
  {
    hide Args, Positionals, ItemOf;
    OneArgs(item);
    OneArgs(ClipItem(ItemOf(p)));
    if item.Positional? {
      ShortenedPositional(item.text, p);
    } else {
      ShortenedArgument(item, p);
    }
  }

  lemma OneArgs(item: Item)
    ensures Args([item]) ==
      match item
      case Positional(_) => []
      case Flag(key) => [Arg(key, "")]
      case Assign(key, value) => [Arg(key, value)]
    ensures Positionals([item]) == if item.Positional? then [item.text] else []
  {
    assert [item][1..] == [];
  }

  lemma ShortenedPositional(text: string, p: string)
    requires !Dashed(text) && p != [] && p < text
    ensures ItemOf(p) == Positional(p)
  {
  }

  /** A shortened argument is a positional dash, a flag with a shorter key, the flag of the key, or the argument with a
      shorter value. */
  lemma ShortenedArgument(item: Item, p: string)
    requires !item.Positional? && WellFormed(item) && p != [] && p < Word(item)
    ensures
      || ItemOf(p) == Positional(p)
      || (ItemOf(p).Flag? && |ItemOf(p).key| < |item.key|)
      || (item.Assign? && p == "--" + item.key && ItemOf(p) == Flag(item.key))
      || (item.Assign? && ItemOf(p).Assign? && |ItemOf(p).value| < |item.value|)
  {
    var key := item.key;
    if |p| >= 2 {
      assert p == "--" + p[2..];
      var body := p[2..];
      if |body| < |key| {
        assert body == key[..|body|];
        NoEquals(key, |body|);
        AssignedOrFlag(body, body, |body|);
      } else if |body| == |key| {
        assert body == key;
        AssignedOrFlag(body, key, |key|);
      } else {
        assert body[..|key|] == key && body[|key|] == '=';
        AssignedOrFlag(body, key, |key|);
      }
    }
  }

  lemma NoEquals(key: string, n: nat)
    requires '=' !in key && n <= |key|
    ensures '=' !in key[..n]
  {
  }

  // ----- Items that differ in such a last one -----

  lemma {:induction false} ArgsApart(items: seq<Item>, a: Item)
    ensures Args(items + [a]) == Args(items) + Args([a])
  {
    if items == [] {
      assert items + [a] == [a];
    } else {
      ArgsApart(items[1..], a);
      assert (items + [a])[1..] == items[1..] + [a];
    }
  }

  lemma {:induction false} PositionalsApart(items: seq<Item>, a: Item)
    ensures Positionals(items + [a]) == Positionals(items) + Positionals([a])
  {
    if items == [] {
      assert items + [a] == [a];
    } else {
      PositionalsApart(items[1..], a);
      assert (items + [a])[1..] == items[1..] + [a];
    }
  }

  lemma LastApart(items: seq<Item>, a: Item)
    ensures Args(items + [a]) == Args(items) + Args([a])
    ensures Positionals(items + [a]) == Positionals(items) + Positionals([a])
  {
    ArgsApart(items, a);
    PositionalsApart(items, a);
  }

  lemma FromBlank(verb: string, items: seq<Item>)
    ensures Extend(Parsed(verb, [], []), items) == Parsed(verb, Args(items), Positionals(items))
  {
  }

  lemma {:induction false} FitApart(items: seq<Item>, a: Item)
    ensures AllFit(items + [a]) <==> AllFit(items) && Fits(a)
  {
    if items == [] {
      assert (items + [a])[1..] == [];
    } else {
      FitApart(items[1..], a);
      assert (items + [a])[1..] == items[1..] + [a];
    }
  }

  lemma {:induction false} WordsApart(items: seq<Item>, a: Item)
    ensures Words(items + [a]) == Words(items) + [Word(a)]
  {
    if items == [] {
      assert (items + [a])[1..] == [];
    } else {
      WordsApart(items[1..], a);
      assert (items + [a])[1..] == items[1..] + [a];
    }
  }

  lemma {:induction false} ClipApart(items: seq<Item>, a: Item)
    ensures ClipAll(items + [a]) == ClipAll(items) + [ClipItem(a)]
  {
    if items == [] {
      assert (items + [a])[1..] == [];
    } else {
      ClipApart(items[1..], a);
      assert (items + [a])[1..] == items[1..] + [a];
    }
  }

  /** "--key=" and "--key" say the same, and fit and fill alike. */
  lemma Twins(items: seq<Item>, key: string)
    ensures var a, b := items + [Assign(key, "")], items + [Flag(key)];
      Args(a) == Args(b) && Positionals(a) == Positionals(b) && (AllFit(a) <==> AllFit(b))
      && (Room(Blank, a) <==> Room(Blank, b))
  {
    hide Args, Positionals, AllFit;
    LastApart(items, Assign(key, ""));
    LastApart(items, Flag(key));
    OneArgs(Assign(key, ""));
    OneArgs(Flag(key));
    FitApart(items, Assign(key, ""));
    FitApart(items, Flag(key));
    assert (items + [Assign(key, "")])[..|items|] == items == (items + [Flag(key)])[..|items|];
  }

  /** Equal ends of sequences of equal length. */
  lemma SameEnds<T>(a: seq<T>, x: seq<T>, b: seq<T>, y: seq<T>)
    requires a + x == b + y && |a| == |b|
    ensures a == b && x == y
  {
    assert a == (a + x)[..|a|] && x == (a + x)[|a|..];
  }

  /** Collected words that end in a shortened item give the whole items only if that item is such a twin. */
  lemma ShortenedCollect(verb: string, items: seq<Item>, last: Item, p: string)
    requires WellFormed(last) && p != [] && p < Word(last)
    requires var start := Parsed(Clip(verb, VERB_MAX), [], []);
      Extend(start, ClipAll(items + [ItemOf(p)])) == Extend(Blank.(verb := verb), items + [last])
    ensures last.Assign? && last.value == "" && p == "--" + last.key
  {
    hide Args, Positionals, ItemOf, ClipAll;
    var kept := ClipAll(items);
    FromBlank(Clip(verb, VERB_MAX), ClipAll(items + [ItemOf(p)]));
    FromBlank(verb, items + [last]);
    ClipApart(items, ItemOf(p));
    LastApart(kept, ClipItem(ItemOf(p)));
    LastApart(items, last);
    ClipKeepsCounts(items);
    SameEnds(Args(kept), Args([ClipItem(ItemOf(p))]), Args(items), Args([last]));
    SameEnds(Positionals(kept), Positionals([ClipItem(ItemOf(p))]), Positionals(items), Positionals([last]));
    ShortenedItem(last, p);
  }

  // ----- Lines of any length -----

  /** What is cut off says nothing: blanks behind the last word, or the equals sign of an empty last value. */
  predicate Survives(verb: string, items: seq<Item>, gaps: seq<string>)
    requires |gaps| == |items| + 1
  {
    var core := Render(verb, items, gaps, "");
    |core| < 256
    || (|core| == 256 && items != [] && items[|items| - 1].Assign? && items[|items| - 1].value == "")
  }

  predicate Undone(verb: string, items: seq<Item>, gaps: seq<string>, tail: string)
    requires |gaps| == |items| + 1
  {
    Parse(Render(verb, items, gaps, tail)) == Some(Extend(Blank.(verb := verb), items))
  }

  /** A line whose words end in time parses as the line with a shorter tail. */
  lemma TailIsCut(verb: string, items: seq<Item>, gaps: seq<string>, tail: string)
    requires Renderable(verb, items, gaps, tail) && |Render(verb, items, gaps, "")| < BUFFER
    ensures Undone(verb, items, gaps, tail) <==> |verb| < 16 && AllFit(items) && Room(Blank, items)
  {
    hide Spaced, Tokens, Extend, AllFit, Room, CString, Collect;
    var words := [verb] + Words(items);
    var core, line := Render(verb, items, gaps, ""), Render(verb, items, gaps, tail);
    SpacedTail(words, gaps, tail);
    var n := Min(|tail|, BUFFER - 1 - |core|);
    var shorter := tail[..n];
    GapPrefix(tail, n);
    SpacedTail(words, gaps, shorter);
    ParseShortIff(verb, items, gaps, shorter);
    assert Render(verb, items, gaps, shorter) == if |line| < BUFFER then line else line[..BUFFER - 1];
  }

  lemma ParseOfCut(verb: string, items: seq<Item>, gaps: seq<string>, tail: string)
    requires Renderable(verb, items, gaps, tail) && |Render(verb, items, gaps, "")| >= BUFFER
    ensures var cut := Tokens(Render(verb, items, gaps, "")[..BUFFER - 1]);
      Parse(Render(verb, items, gaps, tail)) ==
        if cut == [] then None else Some(Collect(Parsed(Clip(cut[0], VERB_MAX), [], []), cut[1..]))
  {
    hide Spaced, Tokens, Collect, CString;
    var words := [verb] + Words(items);
    SpacedTail(words, gaps, tail);
    SpacedHasNoNul(words, gaps, "");
    var core := Render(verb, items, gaps, "");
    assert Render(verb, items, gaps, tail)[..BUFFER - 1] == core[..BUFFER - 1];
    NoNulPrefix(core, BUFFER - 1);
    CStringIs(core[..BUFFER - 1]);
  }

  lemma NoNulPrefix(s: string, n: nat)
    requires NUL !in s && n <= |s|
    ensures NUL !in s[..n]
  {
  }

  /** A cut that leaves fewer words, or shortens the verb, is never undone. */
  lemma FewerWords(verb: string, items: seq<Item>, cut: seq<string>)
    requires cut != [] && |cut| <= |items|
    ensures Collect(Parsed(Clip(cut[0], VERB_MAX), [], []), cut[1..]) != Extend(Blank.(verb := verb), items)
  {
    hide Collect, Extend, Room, ClipAll, Items;
    var start := Parsed(Clip(cut[0], VERB_MAX), [], []);
    CollectAll(start, cut[1..]);
    ExtendSize(Blank.(verb := verb), items);
  }

  lemma ShorterVerb(verb: string, p: string)
    requires |p| < |verb|
    ensures Collect(Parsed(Clip(p, VERB_MAX), [], []), []) != Extend(Blank.(verb := verb), [])
  {
    FromBlank(verb, []);
  }

  /** With the last word shortened by `missing` characters, collecting gives the items exactly if the last one is an
      empty assignment that lost its equals sign, and the rest fits. */
  lemma ShortenedIff(verb: string, items: seq<Item>, last: Item, p: string)
    requires forall i :: 0 <= i < |items| ==> WellFormed(items[i])
    requires WellFormed(last) && p != [] && p < Word(last)
    ensures var all := items + [last];
      Collect(Parsed(Clip(verb, VERB_MAX), [], []), Words(items) + [p]) == Extend(Blank.(verb := verb), all)
      <==> |verb| < 16 && AllFit(all) && Room(Blank, all)
           && last.Assign? && last.value == "" && |p| + 1 == |Word(last)|
  {
    hide Collect, Extend, Room, ClipAll, Items, Words, AllFit, ItemOf, Args, Positionals;
    var start, cut := Parsed(Clip(verb, VERB_MAX), [], []), items + [ItemOf(p)];
    WordOfItem(p);
    WordsApart(items, ItemOf(p));
    assert Words(cut) == Words(items) + [p];
    CollectAll(start, Words(cut));
    ItemsOfWords(cut);
    ExtendSize(Blank.(verb := verb), items + [last]);
    if Collect(start, Words(cut)) == Extend(Blank.(verb := verb), items + [last]) {
      ShortenedCollect(verb, items, last, p);
    }
    if last.Assign? && last.value == "" && |p| + 1 == |Word(last)| {
      WithoutEquals(last, p);
      Twins(items, last.key);
      FromBlank(verb, items + [last]);
      FromBlank(verb, cut);
      CollectWordsIff(verb, cut);
    }
  }

  lemma WithoutEquals(last: Item, p: string)
    requires WellFormed(last) && last.Assign? && last.value == "" && p < Word(last) && |p| + 1 == |Word(last)|
    ensures last == Assign(last.key, "") && p == "--" + last.key && ItemOf(p) == Flag(last.key)
  {
    assert Word(last) == "--" + last.key + "=" + "";
    assert p == Word(last)[..|p|] == "--" + last.key;
    AssignedOrFlag(last.key, last.key, |last.key|);
  }

  /** Parsing undoes rendering, for lines of any length, exactly when verb, keys and values fit, no array fills up
      before the last item, and what the cut to 255 characters takes away says nothing. */
  lemma ParseRenderIff(verb: string, items: seq<Item>, gaps: seq<string>, tail: string)
    requires Renderable(verb, items, gaps, tail)
    ensures Undone(verb, items, gaps, tail)
      <==> |verb| < 16 && AllFit(items) && Room(Blank, items) && Survives(verb, items, gaps)
  {
    if |Render(verb, items, gaps, "")| < BUFFER {
      hide Undone, AllFit, Room;
      TailIsCut(verb, items, gaps, tail);
    } else {
      LongLine(verb, items, gaps, tail);
    }
  }

  lemma LongLine(verb: string, items: seq<Item>, gaps: seq<string>, tail: string)
    requires Renderable(verb, items, gaps, tail) && |Render(verb, items, gaps, "")| >= BUFFER
    ensures Undone(verb, items, gaps, tail)
      <==> |verb| < 16 && AllFit(items) && Room(Blank, items) && Survives(verb, items, gaps)
  {
    hide Parse, Spaced, Tokens, Collect, Extend, AllFit, Room, Words, Word, Args, Positionals;
    var words, core := [verb] + Words(items), Render(verb, items, gaps, "");
    var cut := Tokens(core[..BUFFER - 1]);
    ParseOfCut(verb, items, gaps, tail);
    TokensOfCut(words, gaps, BUFFER - 1);
    if |cut| <= |items| {
      if cut != [] {
        FewerWords(verb, items, cut);
      }
      ShortWordsLost(verb, items, words, |core| - (BUFFER - 1));
    } else if items == [] {
      assert words == [verb] && cut[1..] == [] && Words(items) == [];
      ShorterVerb(verb, cut[0]);
    } else {
      var n := |items|;
      var init, last, p := items[..n - 1], items[n - 1], cut[n];
      WordsApart(init, last);
      assert items == init + [last];
      Regrouped(cut, verb, Words(init), Word(last));
      ShortenedIff(verb, init, last, p);
    }
  }

  lemma Regrouped(cut: seq<string>, verb: string, middle: seq<string>, last: string)
    requires |cut| == |middle| + 2
    requires cut[..|middle| + 1] == ([verb] + (middle + [last]))[..|middle| + 1]
    ensures cut[0] == verb && cut[1..] == middle + [cut[|middle| + 1]]
  {
    var n := |middle|;
    assert ([verb] + (middle + [last]))[..n + 1] == [verb] + middle;
    assert cut == cut[..n + 1] + [cut[n + 1]];
  }

  lemma ShortWordsLost(verb: string, items: seq<Item>, words: seq<string>, missing: nat)
    requires words == [verb] + Words(items) && missing >= |words[|words| - 1]|
    ensures items != [] && items[|items| - 1].Assign? ==> missing > 1
  {
    if items != [] {
      var n := |items|;
      WordsApart(items[..n - 1], items[n - 1]);
      assert items == items[..n - 1] + [items[n - 1]];
    }
  }
}
