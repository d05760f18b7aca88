/** The text command parser, the argument lookup and the command registry. */
module Cli {
  import opened Wrappers
  import opened CliSpec

  const REGISTRY_MAX := 64
  const COMPOSITE_MAX := VERB_MAX + VALUE_MAX + 2

  /** strtok_r with the separators: the next token, and where the next call continues. */
  method StrtokR(text: string) returns (token: Option<string>, rest: string)
    ensures token.None? <==> Tokens(text) == []
    ensures token.Some? ==> Tokens(text) == [token.value] + Tokens(rest) && token.value != []
    ensures token.Some? ==> |rest| < |text|
  {
    var from := 0;
    while from < |text| && IsSep(text[from])
      invariant from <= |text| && forall i :: 0 <= i < from ==> IsSep(text[i])
    {
      from := from + 1;
    }
    StretchIs(text, true, from);
    if from == |text| {
      return None, [];
    }
    var word := text[from..];
    var n := 0;
    while n < |word| && !IsSep(word[n])
      invariant n <= |word| && forall i :: 0 <= i < n ==> !IsSep(word[i])
    {
      n := n + 1;
    }
    StretchIs(word, false, n);
    rest := if n < |word| then word[n + 1..] else [];
    SkipOneSep(word[n..]);
    return Some(word[..n]), rest;
  }

  lemma SkipOneSep(text: string)
    requires text == [] || IsSep(text[0])
    ensures Tokens(text) == Tokens(if text == [] then [] else text[1..])
  {
    if text != [] {
      var m := Stretch(text[1..], true);
      StretchIs(text, true, m + 1);
      assert text[m + 1..] == text[1..][m..];
    }
  }

  /** One turn of the parser's loop: a token that starts with two dashes is an argument, any other a positional. */
  method StoreToken(ghost verb: string, args: seq<Arg>, positional: seq<string>, token: string)
    returns (newArgs: seq<Arg>, newPositional: seq<string>, full: bool)
    requires !Full(Parsed(verb, args, positional))
    ensures Parsed(verb, newArgs, newPositional)
      == Extend(Parsed(verb, args, positional), [ClipItem(ItemOf(token))])
    ensures full <==> Full(Parsed(verb, newArgs, newPositional))
  {
    newArgs, newPositional := args, positional;
    ExtendByOne(Parsed(verb, args, positional), token);
    if Dashed(token) {
      var word := token[2..];
      var eq := Equals(word);
      if eq < |word| {
        newArgs := args + [Arg(Clip(word[..eq], KEY_MAX), Clip(word[eq + 1..], VALUE_MAX))];
      } else {
        newArgs := args + [Arg(Clip(word, KEY_MAX), "")];
      }
      full := |newArgs| >= MAX_ARGS;
    } else {
      newPositional := positional + [Clip(token, VALUE_MAX)];
      full := |newPositional| >= MAX_POSITIONAL;
    }
  }

  /** parse_cli_command. */
  method ParseCliCommand(data: string) returns (r: Option<Parsed>)
    ensures r == Parse(data)
  {
    hide Tokens, Collect, Extend, ItemOf;
    if |data| == 0 {
      TokensOfGap(CString(data));
      return None;
    }
    var copyLen := |data|;
    if copyLen >= BUFFER {
      copyLen := BUFFER - 1;
    }
    assert data[..copyLen] == if |data| < BUFFER then data else data[..BUFFER - 1];
    var text := CString(data[..copyLen]);
    var token, rest := StrtokR(text);
    if token.None? {
      return None;
    }
    var verb := Clip(token.value, VERB_MAX);
    var args: seq<Arg>, positional: seq<string> := [], [];
    ghost var result := Collect(Parsed(verb, [], []), Tokens(rest));
    assert Tokens(text)[1..] == Tokens(rest);
    while true
      invariant !Full(Parsed(verb, args, positional))
      invariant Collect(Parsed(verb, args, positional), Tokens(rest)) == result
      decreases |rest|
    {
      ghost var before, left := Parsed(verb, args, positional), rest;
      token, rest := StrtokR(rest);
      if token.None? {
        CollectEnds(before, Tokens(left));
        break;
      }
      CollectStep(before, Tokens(left), token.value, Tokens(rest));
      var full;
      args, positional, full := StoreToken(verb, args, positional, token.value);
      if full {
        CollectEnds(Parsed(verb, args, positional), Tokens(rest));
        break;
      }
    }
    return Some(Parsed(verb, args, positional));
  }

  lemma CollectStep(p: Parsed, words: seq<string>, word: string, rest: seq<string>)
    requires words == [word] + rest && !Full(p)
    ensures Collect(p, words) == Collect(Extend(p, [ClipItem(ItemOf(word))]), rest)
  {
    assert words[0] == word && words[1..] == rest;
  }

  lemma CollectEnds(p: Parsed, words: seq<string>)
    requires words == [] || Full(p)
    ensures Collect(p, words) == p
  {
  }

  lemma ExtendByOne(p: Parsed, word: string)
    ensures Extend(p, [ClipItem(ItemOf(word))]) ==
      match ItemOf(word)
      case Positional(text) => p.(positional := p.positional + [Clip(text, VALUE_MAX)])
      case Flag(key) => p.(args := p.args + [Arg(Clip(key, KEY_MAX), "")])
      case Assign(key, value) => p.(args := p.args + [Arg(Clip(key, KEY_MAX), Clip(value, VALUE_MAX))])
  {
    hide ItemOf, Clip;
    var item := ClipItem(ItemOf(word));
    assert [item][1..] == [];
    assert Args([item]) ==
      match item
      case Positional(_) => []
      case Flag(key) => [Arg(key, "")]
      case Assign(key, value) => [Arg(key, value)];
    assert Positionals([item]) == if item.Positional? then [item.text] else [];
  }

  // ----- Arguments -----

  /** strncmp(a, b, n) == 0 of two C strings. */
  predicate SamePrefix(a: string, b: string, n: nat) {
    (if |a| < n then a else a[..n]) == if |b| < n then b else b[..n]
  }

  /** The character at k of a C string, its terminator past its end. */
  function CharAt(s: string, k: nat): char {
    if k < |s| then s[k] else NUL
  }

  /** Character by character, terminators included, up to n. */
  lemma SamePrefixIs(a: string, b: string, n: nat)
    requires NUL !in a && NUL !in b
    ensures SamePrefix(a, b, n) <==> forall k :: 0 <= k < n ==> CharAt(a, k) == CharAt(b, k)
  {
    var x, y := if |a| < n then a else a[..n], if |b| < n then b else b[..n];
    if forall k :: 0 <= k < n ==> CharAt(a, k) == CharAt(b, k) {
      assert |x| < |y| ==> CharAt(a, |x|) == CharAt(b, |x|);
      assert |y| < |x| ==> CharAt(a, |y|) == CharAt(b, |y|);
      assert forall k :: 0 <= k < |x| && k < |y| ==> CharAt(a, k) == x[k] && CharAt(b, k) == y[k];
    } else {
      var k :| 0 <= k < n && CharAt(a, k) != CharAt(b, k);
      assert k < |x| ==> x[k] == CharAt(a, k);
      assert k < |y| ==> y[k] == CharAt(b, k);
    }
  }

  /** Every string and array of a parsed command stays within its buffer. */
  predicate Bounded(p: Parsed) {
    |p.verb| < VERB_MAX && |p.args| <= MAX_ARGS && |p.positional| <= MAX_POSITIONAL
    && (forall i :: 0 <= i < |p.args| ==> |p.args[i].key| < KEY_MAX && |p.args[i].value| < VALUE_MAX)
    && (forall i :: 0 <= i < |p.positional| ==> |p.positional[i]| < VALUE_MAX)
  }

  lemma {:induction false} CollectBounded(p: Parsed, words: seq<string>)
    requires Bounded(p)
    ensures Bounded(Collect(p, words))
    decreases |words|
  {
    if words != [] && !Full(p) {
      ExtendByOne(p, words[0]);
      CollectBounded(Extend(p, [ClipItem(ItemOf(words[0]))]), words[1..]);
    }
  }

  /** No input, of any length or content, makes the parser write outside its buffers. */
  lemma ParseBounded(data: string)
    requires Parse(data).Some?
    ensures Bounded(Parse(data).value)
  {
    hide Bounded, Collect, Tokens;
    var tokens := Tokens(CString(if |data| < BUFFER then data else data[..BUFFER - 1]));
    StartBounded(Clip(tokens[0], VERB_MAX));
    CollectBounded(Parsed(Clip(tokens[0], VERB_MAX), [], []), tokens[1..]);
  }

  lemma StartBounded(verb: string)
    requires |verb| < VERB_MAX
    ensures Bounded(Parsed(verb, [], []))
  {
  }

  predicate FirstWithKey(args: seq<Arg>, key: string, i: int) {
    0 <= i < |args| && args[i].key == key && forall j :: 0 <= j < i ==> args[j].key != key
  }

  /** cli_get_arg: the value of the first argument with that very key, whatever the length asked for. */
  method GetArg(parsed: Parsed, key: string) returns (value: Option<string>)
    requires Bounded(parsed)
    ensures value.Some? ==> exists i :: FirstWithKey(parsed.args, key, i) && parsed.args[i].value == value.value
    ensures value.None? ==> forall i :: 0 <= i < |parsed.args| ==> parsed.args[i].key != key
  {
    for i := 0 to |parsed.args|
      invariant forall j :: 0 <= j < i ==> parsed.args[j].key != key
    {
      if SamePrefix(parsed.args[i].key, key, KEY_MAX) {
        assert FirstWithKey(parsed.args, key, i);
        return Some(parsed.args[i].value);
      }
    }
    return None;
  }

  // ----- The registry -----

  datatype Spec = Spec(name: Option<string>, required: bool)

  datatype Entry = Entry(verb: string, specs: seq<Spec>, position: seq<int>)

  /** How many of the first n specs are unnamed. */
  function Unnamed(specs: seq<Spec>, n: nat): (r: nat)
    requires n <= |specs|
    ensures r <= n
  {
    if n == 0 then 0 else Unnamed(specs, n - 1) + if specs[n - 1].name.None? then 1 else 0
  }

  /** An unnamed spec's positional index is its rank among the unnamed ones; a named one has none. */
  predicate Ranked(specs: seq<Spec>, position: seq<int>) {
    |position| == |specs| && forall i :: 0 <= i < |specs| ==>
      position[i] == if specs[i].name.None? then Unnamed(specs, i) else -1
  }

  /** The positional loop of register_command. */
  method RankSpecs(specs: seq<Spec>) returns (position: Option<seq<int>>)
    ensures position.Some? <==> |specs| <= MAX_ARGS
    ensures position.Some? ==> Ranked(specs, position.value)
  {
    var out: seq<int>, count := [], 0;
    for i := 0 to |specs|
      invariant i <= MAX_ARGS && |out| == i && count == Unnamed(specs, i)
      invariant forall j :: 0 <= j < i ==> out[j] == if specs[j].name.None? then Unnamed(specs, j) else -1
    {
      if i >= MAX_ARGS {
        return None;
      }
      if specs[i].name.None? {
        if count >= MAX_POSITIONAL {
          return None;
        }
        out := out + [count];
        count := count + 1;
      } else {
        out := out + [-1];
      }
    }
    return Some(out);
  }

  /** What a spec is handed: its own positional, or the value of its name. */
  ghost predicate Handed(spec: Spec, rank: nat, parsed: Parsed, raw: Option<string>) {
    if spec.name.None? then
      raw == if rank < |parsed.positional| then Some(parsed.positional[rank]) else None
    else if raw.Some? then
      exists i :: FirstWithKey(parsed.args, spec.name.value, i) && parsed.args[i].value == raw.value
    else
      forall i :: 0 <= i < |parsed.args| ==> parsed.args[i].key != spec.name.value
  }

  ghost predicate BoundAt(entry: Entry, parsed: Parsed, i: nat, raw: Option<string>)
    requires i < |entry.specs|
  {
    Handed(entry.specs[i], Unnamed(entry.specs, i), parsed, raw) && (entry.specs[i].required ==> raw.Some?)
  }

  ghost predicate MissingAt(entry: Entry, parsed: Parsed, i: nat)
    requires i < |entry.specs|
  {
    entry.specs[i].required && Handed(entry.specs[i], Unnamed(entry.specs, i), parsed, None)
  }

  method RawArgument(spec: Spec, position: int, ghost rank: nat, parsed: Parsed) returns (raw: Option<string>)
    requires Bounded(parsed)
    requires position == if spec.name.None? then rank else -1
    ensures Handed(spec, rank, parsed, raw)
  {
    raw := None;
    if position >= 0 {
      if position < |parsed.positional| {
        raw := Some(parsed.positional[position]);
      }
    } else if spec.name.Some? {
      raw := GetArg(parsed, spec.name.value);
    }
  }

  /** The argument loop of command_registry_handle, before types: None is the missing-argument error. */
  method Bind(entry: Entry, parsed: Parsed) returns (raws: Option<seq<Option<string>>>)
    requires Bounded(parsed) && Ranked(entry.specs, entry.position)
    ensures raws.Some? ==> |raws.value| == |entry.specs|
    ensures raws.Some? ==> forall i :: 0 <= i < |entry.specs| ==> BoundAt(entry, parsed, i, raws.value[i])
    ensures raws.None? ==> exists i :: 0 <= i < |entry.specs| && MissingAt(entry, parsed, i)
  {
    hide Handed, Bounded;
    var out: seq<Option<string>> := [];
    for i := 0 to |entry.specs|
      invariant |out| == i
      invariant forall j :: 0 <= j < i ==> BoundAt(entry, parsed, j, out[j])
    {
      var raw := RawArgument(entry.specs[i], entry.position[i], Unnamed(entry.specs, i), parsed);
      if raw.None? && entry.specs[i].required {
        assert MissingAt(entry, parsed, i);
        return None;
      }
      out := out + [raw];
    }
    return Some(out);
  }

  class Registry {
    const slots: array<Option<Entry>>

    /** No two registered verbs agree in their first 16 characters. */
    ghost predicate Valid()
      reads this, slots
    {
      slots.Length == REGISTRY_MAX
      && forall i, j :: 0 <= i < j < REGISTRY_MAX && slots[i].Some? && slots[j].Some? ==>
        !SamePrefix(slots[i].value.verb, slots[j].value.verb, VERB_MAX)
    }

    constructor ()
      ensures Valid() && fresh(slots)
      ensures forall i :: 0 <= i < REGISTRY_MAX ==> slots[i] == None
    {
      slots := new Option<Entry>[REGISTRY_MAX](_ => None);
    }

    ghost predicate Clashes(verb: string)
      reads slots
    {
      exists i :: 0 <= i < slots.Length && slots[i].Some? && SamePrefix(slots[i].value.verb, verb, VERB_MAX)
    }

    ghost predicate Crowded()
      reads slots
    {
      forall i :: 0 <= i < slots.Length ==> slots[i].Some?
    }

    /** register_command: into the first free slot, or nothing changes. */
    method Register(verb: string, specs: seq<Spec>) returns (ok: bool)
      requires Valid()
      modifies slots
      ensures Valid()
      ensures ok <==> |specs| <= MAX_ARGS && !old(Clashes(verb)) && !old(Crowded())
      ensures !ok ==> slots[..] == old(slots[..])
      ensures ok ==> exists k, position ::
        0 <= k < REGISTRY_MAX && Ranked(specs, position)
        && old(slots[k]).None? && (forall j :: 0 <= j < k ==> old(slots[j]).Some?)
        && slots[..] == old(slots[..])[k := Some(Entry(verb, specs, position))]
    {
      var position := RankSpecs(specs);
      if position.None? {
        return false;
      }
      var slot: Option<nat> := None;
      for i := 0 to REGISTRY_MAX
        invariant slot.None? ==> forall j :: 0 <= j < i ==> slots[j].Some?
        invariant slot.Some? ==> slot.value < i && slots[slot.value].None?
        invariant slot.Some? ==> forall j :: 0 <= j < slot.value ==> slots[j].Some?
        invariant forall j :: 0 <= j < i && slots[j].Some? ==> !SamePrefix(slots[j].value.verb, verb, VERB_MAX)
      {
        if slots[i].Some? {
          if SamePrefix(slots[i].value.verb, verb, VERB_MAX) {
            return false;
          }
        } else if slot.None? {
          slot := Some(i);
        }
      }
      if slot.None? {
        return false;
      }
      slots[slot.value] := Some(Entry(verb, specs, position.value));
      return true;
    }

    ghost predicate Registered(verb: string, e: Entry)
      reads slots
    {
      e.verb == verb && exists i :: 0 <= i < slots.Length && slots[i] == Some(e)
    }

    /** A verb names at most one entry, wherever it sits. */
    lemma OneEntry(a: Entry, b: Entry)
      requires Valid() && Registered(a.verb, a) && Registered(a.verb, b)
      ensures a == b
    {
    }

    /** find_entry. */
    method FindEntry(verb: string) returns (entry: Option<Entry>)
      requires Valid()
      ensures entry.Some? ==> Registered(verb, entry.value)
      ensures entry.None? ==> forall e :: !Registered(verb, e)
    {
      for i := 0 to REGISTRY_MAX
        invariant forall j :: 0 <= j < i && slots[j].Some? ==> slots[j].value.verb != verb
      {
        if slots[i].Some? && slots[i].value.verb == verb {
          return slots[i];
        }
      }
      return None;
    }

    /** The lookup of command_registry_handle: "verb positional0" before the verb alone. */
    method Lookup(parsed: Parsed) returns (entry: Option<Entry>, left: Parsed)
      requires Valid()
      requires Bounded(parsed)
      ensures left.verb == parsed.verb && left.args == parsed.args
      ensures forall e :: Composite(parsed, e) ==> entry == Some(e) && left.positional == parsed.positional[1..]
      ensures (forall e :: !Composite(parsed, e)) ==>
        left == parsed
        && (entry.Some? ==> Registered(parsed.verb, entry.value))
        && (entry.None? ==> forall e :: !Registered(parsed.verb, e))
    {
      entry, left := None, parsed;
      if |parsed.positional| > 0 {
        var composite := parsed.verb + " " + parsed.positional[0];
        if |composite| < COMPOSITE_MAX {
          entry := FindEntry(composite);
          if entry.Some? {
            assert Composite(parsed, entry.value);
            left := left.(positional := parsed.positional[1..]);
          }
        }
      }
      if entry.None? {
        entry := FindEntry(parsed.verb);
      }
    }

    ghost predicate Composite(parsed: Parsed, e: Entry)
      reads slots
    {
      parsed.positional != [] && Registered(parsed.verb + " " + parsed.positional[0], e)
    }
  }
}
