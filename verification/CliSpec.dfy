/** Command lines: their words, what the words mean, and what the parser's limits leave of them. */
module CliSpec {
  import opened Wrappers

  const VERB_MAX := 16
  const KEY_MAX := 16
  const VALUE_MAX := 64
  const MAX_ARGS := 10
  const MAX_POSITIONAL := 16
  const BUFFER := 256
  const NUL: char := 0 as char

  datatype Item =
    | Positional(text: string)
    | Flag(key: string)
    | Assign(key: string, value: string)

  datatype Arg = Arg(key: string, value: string)

  datatype Parsed = Parsed(verb: string, args: seq<Arg>, positional: seq<string>)

  // ----- Words -----

  predicate IsSep(c: char) {
    c == ' ' || c == '\t' || c == '\r' || c == '\n'
  }

  /** A blank, a tab, a carriage return or a line feed. */
  lemma SeparatorsAre(c: char)
    ensures IsSep(c) <==> c in " \t\r\n"
  {
  }

  predicate IsWord(s: string) {
    s != [] && forall i :: 0 <= i < |s| ==> !IsSep(s[i]) && s[i] != NUL
  }

  predicate IsGap(s: string) {
    forall i :: 0 <= i < |s| ==> IsSep(s[i])
  }

  /** The length of the leading stretch of separators, or of non-separators. */
  function Stretch(text: string, seps: bool): (n: nat)
    ensures n <= |text| && (n < |text| ==> IsSep(text[n]) != seps)
    ensures forall i :: 0 <= i < n ==> IsSep(text[i]) == seps
  {
    if text == [] || IsSep(text[0]) != seps then 0 else 1 + Stretch(text[1..], seps)
  }

  lemma {:induction false} StretchIs(text: string, seps: bool, n: nat)
    requires n <= |text| && (n < |text| ==> IsSep(text[n]) != seps)
    requires forall i :: 0 <= i < n ==> IsSep(text[i]) == seps
    ensures Stretch(text, seps) == n
  {
    if n > 0 {
      StretchIs(text[1..], seps, n - 1);
    }
  }

  /** What repeated strtok_r with the separators returns. */
  function Tokens(text: string): seq<string>
    decreases |text|
  {
    var t := text[Stretch(text, true)..];
    if t == [] then []
    else
      var n := Stretch(t, false);
      [t[..n]] + Tokens(t[n..])
  }

  /** The words with a gap before each and one after the last. */
  function Spaced(words: seq<string>, gaps: seq<string>, tail: string): string
    requires |gaps| == |words|
  {
    if words == [] then tail else gaps[0] + words[0] + Spaced(words[1..], gaps[1..], tail)
  }

  predicate GoodGaps(gaps: seq<string>) {
    forall i :: 0 <= i < |gaps| ==> IsGap(gaps[i]) && (i > 0 ==> gaps[i] != [])
  }

  predicate AllWords(words: seq<string>) {
    forall i :: 0 <= i < |words| ==> IsWord(words[i])
  }

  lemma TokensOfGap(gap: string)
    requires IsGap(gap)
    ensures Tokens(gap) == []
  {
    StretchIs(gap, true, |gap|);
  }

  lemma TokensOfWord(gap: string, word: string, rest: string)
    requires IsGap(gap) && IsWord(word) && (rest == [] || IsSep(rest[0]))
    ensures Tokens(gap + word + rest) == [word] + Tokens(rest)
  {
    hide Tokens, Stretch, IsSep;
    var text := gap + word + rest;
    assert text == gap + (word + rest);
    GapStretch(gap, word + rest, true);
    GapStretch(word, rest, false);
    assert text[|gap|..] == word + rest;
    assert (word + rest)[..|word|] == word && (word + rest)[|word|..] == rest;
    TokensUnfold(text, |gap|, |word|);
  }

  lemma GapStretch(run: string, rest: string, seps: bool)
    requires forall i :: 0 <= i < |run| ==> IsSep(run[i]) == seps
    requires rest == [] || IsSep(rest[0]) != seps
    ensures Stretch(run + rest, seps) == |run|
  {
    StretchIs(run + rest, seps, |run|);
  }

  lemma TokensUnfold(text: string, m: nat, n: nat)
    requires Stretch(text, true) == m < |text| && Stretch(text[m..], false) == n
    ensures Tokens(text) == [text[m..][..n]] + Tokens(text[m..][n..])
  {
  }

  /** However the words are spaced, strtok_r gets them back. */
  lemma {:induction false} TokensOfSpaced(words: seq<string>, gaps: seq<string>, tail: string)
    requires |gaps| == |words| && GoodGaps(gaps) && IsGap(tail) && AllWords(words)
    ensures Tokens(Spaced(words, gaps, tail)) == words
  {
    if words == [] {
      TokensOfGap(tail);
    } else {
      TokensOfSpaced(words[1..], gaps[1..], tail);
      var rest := Spaced(words[1..], gaps[1..], tail);
      if |words| > 1 {
        assert gaps[1] != [] && rest[0] == gaps[1][0] && IsSep(gaps[1][0]);
      }
      TokensOfWord(gaps[0], words[0], rest);
    }
  }

  // ----- Items -----

  predicate Dashed(word: string) {
    |word| >= 2 && word[0] == '-' && word[1] == '-'
  }

  /** strchr(word, '='): its index, or the length. */
  function Equals(word: string): (n: nat)
    ensures n <= |word| && (n < |word| ==> word[n] == '=')
    ensures forall i :: 0 <= i < n ==> word[i] != '='
  {
    if word == [] || word[0] == '=' then 0 else 1 + Equals(word[1..])
  }

  function ItemOf(word: string): Item {
    if !Dashed(word) then Positional(word)
    else
      var body := word[2..];
      var n := Equals(body);
      if n < |body| then Assign(body[..n], body[n + 1..]) else Flag(body)
  }

  function Word(item: Item): string {
    match item
    case Positional(text) => text
    case Flag(key) => "--" + key
    case Assign(key, value) => "--" + key + "=" + value
  }

  /** No positional looks like an argument, and no key holds an equals sign. */
  predicate WellFormed(item: Item) {
    match item
    case Positional(text) => !("--" <= text)
    case Flag(key) => '=' !in key
    case Assign(key, _) => '=' !in key
  }

  lemma {:induction false} EqualsIs(word: string, n: nat)
    requires n <= |word| && (n < |word| ==> word[n] == '=')
    requires forall i :: 0 <= i < n ==> word[i] != '='
    ensures Equals(word) == n
  {
    if n > 0 {
      EqualsIs(word[1..], n - 1);
    }
  }

  lemma ItemOfWord(item: Item)
    requires WellFormed(item)
    ensures ItemOf(Word(item)) == item
  {
    match item
    case Positional(_) =>
    case Flag(key) => AssignedOrFlag(key, key, |key|);
    case Assign(key, value) =>
      var body := key + "=" + value;
      assert Word(item) == "--" + body;
      AssignedOrFlag(body, key, |key|);
      assert body[|key| + 1..] == value;
  }

  lemma AssignedOrFlag(body: string, key: string, n: nat)
    requires n <= |body| && key == body[..n] && '=' !in key && (n < |body| ==> body[n] == '=')
    ensures ItemOf("--" + body) == if n < |body| then Assign(key, body[n + 1..]) else Flag(body)
  {
    assert ("--" + body)[2..] == body;
    forall i | 0 <= i < n
      ensures body[i] != '='
    {
      assert key[i] in key;
    }
    EqualsIs(body, n);
  }

  /** Words and well-formed items are the same thing. */
  lemma WordOfItem(word: string)
    ensures WellFormed(ItemOf(word)) && Word(ItemOf(word)) == word
  {
    if Dashed(word) {
      var body := word[2..];
      var n := Equals(body);
      assert word == "--" + body;
      if n < |body| {
        assert body == body[..n] + "=" + body[n + 1..];
        assert word == "--" + body[..n] + "=" + body[n + 1..];
      }
    }
  }

  /** strncpy into a buffer of `max` chars, terminated. */
  function Clip(s: string, max: nat): (r: string)
    requires max > 0
    ensures r <= s && |r| < max && (r == s <==> |s| < max)
    ensures |s| >= max ==> |r| == max - 1
  {
    if |s| < max then s else s[..max - 1]
  }

  function ClipItem(item: Item): Item {
    match item
    case Positional(text) => Positional(Clip(text, VALUE_MAX))
    case Flag(key) => Flag(Clip(key, KEY_MAX))
    case Assign(key, value) => Assign(Clip(key, KEY_MAX), Clip(value, VALUE_MAX))
  }

  predicate Fits(item: Item) {
    match item
    case Positional(text) => |text| < 64
    case Flag(key) => |key| < 16
    case Assign(key, value) => |key| < 16 && |value| < 64
  }

  // ----- Collecting items -----

  function Args(items: seq<Item>): seq<Arg> {
    if items == [] then []
    else
      (match items[0]
       case Positional(_) => []
       case Flag(key) => [Arg(key, "")]
       case Assign(key, value) => [Arg(key, value)]) + Args(items[1..])
  }

  function Positionals(items: seq<Item>): seq<string> {
    if items == [] then []
    else (if items[0].Positional? then [items[0].text] else []) + Positionals(items[1..])
  }

  /** p with the items' arguments and positionals behind its own. */
  function Extend(p: Parsed, items: seq<Item>): Parsed {
    Parsed(p.verb, p.args + Args(items), p.positional + Positionals(items))
  }

  predicate Full(p: Parsed) {
    |p.args| >= 10 || |p.positional| >= 16
  }

  /** The loop over the tokens: it stops once an array is full, whatever tokens are left. */
  function Collect(p: Parsed, words: seq<string>): Parsed
    decreases |words|
  {
    if words == [] || Full(p) then p else Collect(Extend(p, [ClipItem(ItemOf(words[0]))]), words[1..])
  }

  function Items(words: seq<string>): (r: seq<Item>)
    ensures |r| == |words|
  {
    if words == [] then [] else [ItemOf(words[0])] + Items(words[1..])
  }

  function ClipAll(items: seq<Item>): (r: seq<Item>)
    ensures |r| == |items|
  {
    if items == [] then [] else [ClipItem(items[0])] + ClipAll(items[1..])
  }

  function Words(items: seq<Item>): (r: seq<string>)
    ensures |r| == |items|
  {
    if items == [] then [] else [Word(items[0])] + Words(items[1..])
  }

  /** The items but the last leave no array full, so the last one is still looked at. */
  predicate Room(p: Parsed, items: seq<Item>) {
    items == [] || !Full(Extend(p, items[..|items| - 1]))
  }

  lemma ArgsHead(a: Item, rest: seq<Item>)
    ensures Args([a] + rest) == Args([a]) + Args(rest)
  {
    assert ([a] + rest)[1..] == rest && [a][1..] == [];
  }

  lemma PositionalsHead(a: Item, rest: seq<Item>)
    ensures Positionals([a] + rest) == Positionals([a]) + Positionals(rest)
  {
    assert ([a] + rest)[1..] == rest && [a][1..] == [];
  }

  lemma ExtendTwice(p: Parsed, a: Item, rest: seq<Item>)
    ensures Extend(Extend(p, [a]), rest) == Extend(p, [a] + rest)
  {
    hide Args, Positionals;
    ArgsHead(a, rest);
    PositionalsHead(a, rest);
  }

  lemma ExtendNothing(p: Parsed)
    ensures Extend(p, []) == p
  {
  }

  function Size(p: Parsed): nat {
    |p.args| + |p.positional|
  }

  lemma {:induction false} ExtendSize(p: Parsed, items: seq<Item>)
    ensures Size(Extend(p, items)) == Size(p) + |items|
  {
    if items != [] {
      ExtendSize(p, items[1..]);
    }
  }

  lemma RoomAhead(p: Parsed, a: Item, rest: seq<Item>)
    ensures Room(p, [a] + rest) <==> !Full(p) && Room(Extend(p, [a]), rest)
  {
    var m := |rest|;
    if m == 0 {
      assert ([a] + rest)[..m] == [];
    } else {
      assert ([a] + rest)[..m] == [a] + rest[..m - 1];
      ExtendTwice(p, a, rest[..m - 1]);
    }
  }

  /** With room for all, every word is collected, clipped; otherwise some are lost. */
  lemma {:induction false} CollectAll(p: Parsed, words: seq<string>)
    ensures Size(Collect(p, words)) <= Size(p) + |words|
    ensures Room(p, ClipAll(Items(words))) ==> Collect(p, words) == Extend(p, ClipAll(Items(words)))
    ensures !Room(p, ClipAll(Items(words))) ==> Size(Collect(p, words)) < Size(p) + |words|
    decreases |words|
  {
    if words != [] {
      var a := ClipItem(ItemOf(words[0]));
      var rest := ClipAll(Items(words[1..]));
      assert ClipAll(Items(words)) == [a] + rest by {
        assert Items(words)[1..] == Items(words[1..]);
      }
      assert ([a] + rest)[..1] == [a] && ([a] + rest)[1..] == rest;
      ExtendSize(p, [a]);
      CollectAll(Extend(p, [a]), words[1..]);
      ExtendTwice(p, a, rest);
      RoomAhead(p, a, rest);
    } else {
      ExtendNothing(p);
    }
  }

  lemma ConsEqual<T>(x: T, s: seq<T>, y: T, t: seq<T>)
    ensures [x] + s == [y] + t <==> x == y && s == t
  {
    if [x] + s == [y] + t {
      assert ([x] + s)[0] == ([y] + t)[0] && ([x] + s)[1..] == ([y] + t)[1..];
      assert ([x] + s)[1..] == s && ([y] + t)[1..] == t;
    }
  }

  predicate AllFit(items: seq<Item>) {
    items == [] || (Fits(items[0]) && AllFit(items[1..]))
  }

  /** Clipping loses nothing exactly when every key and value fits its buffer. */
  lemma {:induction false} ClipIdentity(items: seq<Item>)
    ensures Args(ClipAll(items)) == Args(items) && Positionals(ClipAll(items)) == Positionals(items)
      <==> AllFit(items)
  {
    if items != [] {
      var rest, kept := items[1..], ClipAll(items[1..]);
      ClipIdentity(rest);
      assert ClipAll(items)[1..] == kept;
      match items[0] {
        case Positional(text) =>
          assert Args(ClipAll(items)) == Args(kept) && Args(items) == Args(rest);
          ConsEqual(Clip(text, VALUE_MAX), Positionals(kept), text, Positionals(rest));
        case Flag(key) =>
          assert Positionals(ClipAll(items)) == Positionals(kept) && Positionals(items) == Positionals(rest);
          ConsEqual(Arg(Clip(key, KEY_MAX), ""), Args(kept), Arg(key, ""), Args(rest));
        case Assign(key, value) =>
          assert Positionals(ClipAll(items)) == Positionals(kept) && Positionals(items) == Positionals(rest);
          ConsEqual(Arg(Clip(key, KEY_MAX), Clip(value, VALUE_MAX)), Args(kept), Arg(key, value), Args(rest));
      }
    }
  }

  lemma {:induction false} ItemsOfWords(items: seq<Item>)
    requires forall i :: 0 <= i < |items| ==> WellFormed(items[i])
    ensures Items(Words(items)) == items
  {
    if items != [] {
      ItemsOfWords(items[1..]);
      ItemOfWord(items[0]);
      assert Words(items)[1..] == Words(items[1..]);
    }
  }

  // ----- Whole lines -----

  /** The C string at the start of a buffer. */
  function CString(data: string): (r: string)
    ensures r <= data && NUL !in r
    ensures |r| < |data| ==> data[|r|] == NUL
  {
    if data == [] || data[0] == NUL then [] else [data[0]] + CString(data[1..])
  }

  lemma {:induction false} CStringIs(data: string)
    requires NUL !in data
    ensures CString(data) == data
  {
    if data != [] {
      CStringIs(data[1..]);
    }
  }

  /** parse_cli_command: None when there is no token. */
  function Parse(data: string): Option<Parsed> {
    var tokens := Tokens(CString(if |data| < BUFFER then data else data[..BUFFER - 1]));
    if tokens == [] then None else Some(Collect(Parsed(Clip(tokens[0], VERB_MAX), [], []), tokens[1..]))
  }

  /** The command line of a verb and its items, spaced at will. */
  function Render(verb: string, items: seq<Item>, gaps: seq<string>, tail: string): string
    requires |gaps| == |items| + 1
  {
    Spaced([verb] + Words(items), gaps, tail)
  }

  predicate Renderable(verb: string, items: seq<Item>, gaps: seq<string>, tail: string) {
    |gaps| == |items| + 1 && GoodGaps(gaps) && IsGap(tail) && AllWords([verb] + Words(items))
    && (forall i :: 0 <= i < |items| ==> WellFormed(items[i]))
  }

  /** The line fits the parser's buffer. */
  predicate Short(verb: string, items: seq<Item>, gaps: seq<string>, tail: string) {
    Renderable(verb, items, gaps, tail) && |Render(verb, items, gaps, tail)| < BUFFER
  }

  lemma {:induction false} SpacedHasNoNul(words: seq<string>, gaps: seq<string>, tail: string)
    requires |gaps| == |words| && GoodGaps(gaps) && IsGap(tail) && AllWords(words)
    ensures NUL !in Spaced(words, gaps, tail)
  {
    if words != [] {
      SpacedHasNoNul(words[1..], gaps[1..], tail);
    }
  }

  lemma ParseOfRender(verb: string, items: seq<Item>, gaps: seq<string>, tail: string)
    requires Short(verb, items, gaps, tail)
    ensures Parse(Render(verb, items, gaps, tail)) == Some(Collect(Parsed(Clip(verb, VERB_MAX), [], []), Words(items)))
  {
    hide Tokens, Collect, CString, Spaced, IsWord, IsGap;
    var all := [verb] + Words(items);
    SpacedHasNoNul(all, gaps, tail);
    CStringIs(Render(verb, items, gaps, tail));
    TokensOfSpaced(all, gaps, tail);
    assert all[1..] == Words(items);
  }

  lemma {:induction false} ClipKeepsCounts(items: seq<Item>)
    ensures |Args(ClipAll(items))| == |Args(items)| && |Positionals(ClipAll(items))| == |Positionals(items)|
  {
    if items != [] {
      ClipKeepsCounts(items[1..]);
      assert ClipAll(items)[1..] == ClipAll(items[1..]);
    }
  }

  lemma {:induction false} ClipPrefix(items: seq<Item>, k: nat)
    requires k <= |items|
    ensures ClipAll(items)[..k] == ClipAll(items[..k])
  {
    if k > 0 {
      ClipPrefix(items[1..], k - 1);
      assert items[..k][1..] == items[1..][..k - 1];
    }
  }

  lemma RoomKeepsCounts(p: Parsed, q: Parsed, items: seq<Item>)
    requires |p.args| == |q.args| && |p.positional| == |q.positional|
    ensures Room(p, ClipAll(items)) <==> Room(q, items)
  {
    if items != [] {
      ClipPrefix(items, |items| - 1);
      ClipKeepsCounts(items[..|items| - 1]);
    }
  }

  const Blank := Parsed("", [], [])

  /** Collecting the words of items gives them back exactly when verb, keys and values fit and no array fills up
      before the last item. */
  lemma CollectWordsIff(verb: string, items: seq<Item>)
    requires forall i :: 0 <= i < |items| ==> WellFormed(items[i])
    ensures Collect(Parsed(Clip(verb, VERB_MAX), [], []), Words(items)) == Extend(Blank.(verb := verb), items)
      <==> |verb| < 16 && AllFit(items) && Room(Blank, items)
  {
    hide Args, Positionals, Collect, Room, ClipAll, Items, Words, AllFit;
    var words := Words(items);
    var start := Parsed(Clip(verb, VERB_MAX), [], []);
    CollectAll(start, words);
    ItemsOfWords(items);
    ClipIdentity(items);
    ExtendSize(Blank.(verb := verb), items);
    RoomKeepsCounts(start, Blank, items);
    if Room(Blank, items) {
      var kept := ClipAll(items);
      assert Collect(start, words) == Parsed(Clip(verb, VERB_MAX), Args(kept), Positionals(kept));
      assert Extend(Blank.(verb := verb), items) == Parsed(verb, Args(items), Positionals(items));
    }
  }

  /** Parsing a line that fits the buffer undoes rendering exactly under the same condition. */
  lemma ParseShortIff(verb: string, items: seq<Item>, gaps: seq<string>, tail: string)
    requires Short(verb, items, gaps, tail)
    ensures Parse(Render(verb, items, gaps, tail)) == Some(Extend(Blank.(verb := verb), items))
      <==> |verb| < 16 && AllFit(items) && Room(Blank, items)
  {
    hide Parse, Render, Extend, Collect, Room, Words, AllFit;
    ParseOfRender(verb, items, gaps, tail);
    CollectWordsIff(verb, items);
  }
}
