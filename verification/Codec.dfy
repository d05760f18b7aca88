/** The 7-bit payload codec: every group of up to seven bytes travels as a prefix of their high bits
    followed by their low seven bits. Firmware and host use it at 36 bytes, 42 encoded. */
module Codec {
  import opened Bytes
  import opened Wrappers

  predicate High(b: byte) {
    b & 0x80 != 0
  }

  /** The high bits of a group, byte j in bit j. */
  function Prefix(group: seq<byte>): byte
    requires |group| <= 7
  {
    var n := |group|;
    if n == 0 then 0
    else Prefix(group[..n - 1]) | (if High(group[n - 1]) then Mask(n - 1) else 0)
  }

  function Lows(group: seq<byte>): (r: seq<byte>)
    ensures |r| == |group|
  {
    seq(|group|, j requires 0 <= j < |group| => group[j] & 0x7F)
  }

  function Restore(prefix: byte, low: byte, j: nat): byte
    requires j < 7
  {
    if Bit(prefix, j) then (low & 0x7F) | 0x80 else low & 0x7F
  }

  function Group(prefix: byte, lows: seq<byte>): (r: seq<byte>)
    requires |lows| <= 7
    ensures |r| == |lows|
  {
    seq(|lows|, j requires 0 <= j < |lows| => Restore(prefix, lows[j], j))
  }

  function Encode(s: seq<byte>): seq<byte> {
    if s == [] then []
    else
      var n := Min(7, |s|);
      [Prefix(s[..n])] + Lows(s[..n]) + Encode(s[n..])
  }

  /** The first n bytes carried by `p`, when it is long enough. */
  function Decode(p: seq<byte>, n: nat): (r: Option<seq<byte>>)
    ensures r.Some? ==> |r.value| == n
  {
    if n == 0 then Some([])
    else
      var m := Min(7, n);
      if |p| < 1 + m then None
      else
        var rest := Decode(p[1 + m..], n - m);
        if rest.None? then None else Some(Group(p[0], p[1..1 + m]) + rest.value)
  }

  function EncodedSize(n: nat): nat {
    n + (n + 6) / 7
  }

  lemma SameBits(a: byte, b: byte)
    requires forall j :: 0 <= j < 8 ==> Bit(a, j) == Bit(b, j)
    ensures a == b
  {
    assert Bit(a, 0) == Bit(b, 0) && Bit(a, 1) == Bit(b, 1) && Bit(a, 2) == Bit(b, 2) && Bit(a, 3) == Bit(b, 3);
    assert Bit(a, 4) == Bit(b, 4) && Bit(a, 5) == Bit(b, 5) && Bit(a, 6) == Bit(b, 6) && Bit(a, 7) == Bit(b, 7);
  }

  lemma {:induction false} PrefixBit(group: seq<byte>, j: nat)
    requires |group| <= 7 && j < 8
    ensures Bit(Prefix(group), j) <==> j < |group| && High(group[j])
  {
    var n := |group|;
    if n > 0 {
      PrefixBit(group[..n - 1], j);
      OrBit(Prefix(group[..n - 1]), n - 1, j);
    }
  }

  lemma OrBit(b: byte, n: nat, j: nat)
    requires n < 8 && j < 8
    ensures Bit(b | Mask(n), j) <==> Bit(b, j) || j == n
    ensures Bit(b | 0, j) == Bit(b, j)
  {
  }

  lemma RestoreLow(b: byte, prefix: byte, j: nat)
    requires j < 7
    ensures High(Restore(prefix, b, j)) == Bit(prefix, j)
    ensures Restore(prefix, b, j) & 0x7F == b & 0x7F
    ensures Bit(prefix, j) == High(b) ==> Restore(prefix, b & 0x7F, j) == b
  {
  }

  /** A group decodes to itself. */
  lemma GroupRoundTrip(group: seq<byte>)
    requires |group| <= 7
    ensures Group(Prefix(group), Lows(group)) == group
  {
    forall j: nat | j < |group|
      ensures Group(Prefix(group), Lows(group))[j] == group[j]
    {
      PrefixBit(group, j);
      RestoreLow(group[j], Prefix(group), j);
    }
  }

  /** Decoding undoes encoding, at every length. */
  lemma {:induction false} DecodeEncode(s: seq<byte>)
    ensures Decode(Encode(s), |s|) == Some(s)
  {
    if s != [] {
      var n := Min(7, |s|);
      var p := Encode(s);
      DecodeEncode(s[n..]);
      GroupRoundTrip(s[..n]);
      assert p[0] == Prefix(s[..n]) && p[1..1 + n] == Lows(s[..n]) && p[1 + n..] == Encode(s[n..]);
      assert s == s[..n] + s[n..];
    }
  }

  lemma EncodeFirst(s: seq<byte>)
    requires s != []
    ensures var n := Min(7, |s|);
      |Encode(s)| == 1 + n + |Encode(s[n..])| && Encode(s)[0] == Prefix(s[..n])
      && Encode(s)[1..1 + n] == Lows(s[..n]) && Encode(s)[1 + n..] == Encode(s[n..])
  {
    hide Prefix, Lows;
  }

  /** Where everything goes: group g starts with its prefix at 8 * g, bit j of which is the top bit of byte 7 * g + j,
      and the low seven bits of that byte follow at 8 * g + 1 + j. */
  lemma {:induction false} EncodeLayout(s: seq<byte>, g: nat, j: nat)
    requires j < 7 && 7 * g + j < |s|
    ensures 8 * g + 1 + j < |Encode(s)|
    ensures Encode(s)[8 * g + 1 + j] == s[7 * g + j] & 0x7F
    ensures Bit(Encode(s)[8 * g], j) <==> s[7 * g + j] & 0x80 != 0
  {
    hide Encode, Prefix, Bit;
    EncodeFirst(s);
    var n := Min(7, |s|);
    if g == 0 {
      PrefixBit(s[..n], j);
      assert Encode(s)[1..1 + n][j] == Encode(s)[1 + j];
    } else {
      EncodeLayout(s[n..], g - 1, j);
      assert Encode(s)[1 + n..][8 * (g - 1) + 1 + j] == Encode(s)[8 * g + 1 + j];
      assert Encode(s)[1 + n..][8 * (g - 1)] == Encode(s)[8 * g];
    }
  }

  predicate SevenBit(p: seq<byte>) {
    forall k :: 0 <= k < |p| ==> p[k] < 0x80
  }

  lemma TopBitClear(b: byte)
    ensures b < 0x80 <==> !Bit(b, 7)
    ensures b & 0x7F < 0x80
    ensures b < 0x80 ==> b & 0x7F == b
  {
  }

  lemma PrefixSevenBit(group: seq<byte>)
    requires |group| <= 7
    ensures Prefix(group) < 0x80
  {
    PrefixBit(group, 7);
    TopBitClear(Prefix(group));
  }

  /** Encoded bytes never reach 0x80, and n bytes become n + ceil(n / 7). */
  lemma {:induction false} EncodedIsSevenBit(s: seq<byte>)
    ensures SevenBit(Encode(s)) && |Encode(s)| == EncodedSize(|s|)
  {
    if s != [] {
      var n := Min(7, |s|);
      EncodedIsSevenBit(s[n..]);
      PrefixSevenBit(s[..n]);
      forall k: nat | k < n ensures Lows(s[..n])[k] < 0x80 { TopBitClear(s[k]); }
    }
  }

  /** Every byte below 0x80, and a short last group's prefix only names bytes it has. */
  predicate Canonical(p: seq<byte>, n: nat)
    requires |p| == EncodedSize(n)
  {
    SevenBit(p) && (n % 7 != 0 ==> p[|p| - n % 7 - 1] < Mask(n % 7))
  }

  lemma BelowMask(b: byte, m: nat)
    requires m < 8
    ensures b < Mask(m) <==> forall j :: m <= j < 8 ==> !Bit(b, j)
  {
    if m == 0 { SameBitsAsZero(b); }
    else if forall j :: m <= j < 8 ==> !Bit(b, j) { HighBitsClear(b, m); }
  }

  lemma SameBitsAsZero(b: byte)
    ensures !(b < 0x01) ==> exists j :: 0 <= j < 8 && Bit(b, j)
  {
    if forall j :: 0 <= j < 8 ==> !Bit(b, j) { SameBits(b, 0); }
  }

  lemma HighBitsClear(b: byte, m: nat)
    requires 0 < m < 8
    requires forall j :: m <= j < 8 ==> !Bit(b, j)
    ensures b < Mask(m)
  {
    assert !Bit(b, 7);
    assert m <= 6 ==> !Bit(b, 6);
    assert m <= 5 ==> !Bit(b, 5);
    assert m <= 4 ==> !Bit(b, 4);
    assert m <= 3 ==> !Bit(b, 3);
    assert m <= 2 ==> !Bit(b, 2);
    assert m <= 1 ==> !Bit(b, 1);
  }

  /** Re-encoding one decoded group gives it back exactly when its bytes are below 0x80 and its prefix
      names no byte beyond it. */
  lemma GroupReencodes(prefix: byte, lows: seq<byte>)
    requires 0 < |lows| <= 7
    ensures Prefix(Group(prefix, lows)) == prefix <==> prefix < Mask(|lows|)
    ensures Lows(Group(prefix, lows)) == lows <==> SevenBit(lows)
  {
    var g := Group(prefix, lows);
    forall j: nat | j < 8
      ensures Bit(Prefix(g), j) <==> j < |lows| && Bit(prefix, j)
    {
      PrefixBit(g, j);
      if j < |lows| { RestoreLow(lows[j], prefix, j); }
    }
    BelowMask(prefix, |lows|);
    if prefix < Mask(|lows|) { SameBits(Prefix(g), prefix); }
    forall j: nat | j < |lows|
      ensures Lows(g)[j] == lows[j] <==> lows[j] < 0x80
    {
      RestoreLow(lows[j], prefix, j);
      TopBitClear(lows[j]);
    }
  }

  /** A payload of the right length always decodes, and encodes back to itself exactly when it is
      canonical; at 36 bytes that is: all bytes below 0x80 and the last prefix at most 1. */
  lemma {:induction false} EncodeDecodeIff(p: seq<byte>, n: nat)
    requires |p| == EncodedSize(n)
    ensures Decode(p, n).Some?
    ensures Encode(Decode(p, n).value) == p <==> Canonical(p, n)
  {
    if n == 0 {
      EncodeNothing([]);
    } else {
      hide *;
      SizeSplits(n);
      EncodeDecodeIff(p[1 + Min(7, n)..], n - Min(7, n));
      EncodeDecodeStep(p, n);
    }
  }

  lemma EncodeDecodeStep(p: seq<byte>, n: nat)
    requires n > 0 && |p| == EncodedSize(n)
    requires var m := Min(7, n);
      && |p| == 1 + m + EncodedSize(n - m)
      && Decode(p[1 + m..], n - m).Some?
      && (Encode(Decode(p[1 + m..], n - m).value) == p[1 + m..] <==> Canonical(p[1 + m..], n - m))
    ensures Decode(p, n).Some?
    ensures Encode(Decode(p, n).value) == p <==> Canonical(p, n)
  {
    hide Canonical, Encode, Decode, Group, Prefix, Lows, EncodedSize;
    var m := Min(7, n);
    GroupReencodes(p[0], p[1..1 + m]);
    CanonicalSplits(p, n);
    DecodeFirstGroup(p, n);
    ReencodedFrom(p[0], p[1..1 + m], p[1 + m..], Decode(p[1 + m..], n - m).value);
    assert p == [p[0]] + p[1..1 + m] + p[1 + m..];
  }

  lemma ReencodedFrom(prefix: byte, lows: seq<byte>, rest: seq<byte>, s: seq<byte>)
    requires 0 < |lows| <= 7 && (|lows| == 7 || s == [])
    ensures var g := Group(prefix, lows);
      Encode(g + s) == [prefix] + lows + rest <==> Prefix(g) == prefix && Lows(g) == lows && Encode(s) == rest
  {
    hide Encode, Group, Prefix, Lows;
    var g := Group(prefix, lows);
    EncodeFirstGroup(g, s);
    ConcatEqual(Prefix(g), Lows(g), Encode(s), prefix, lows, rest);
  }

  lemma SizeSplits(n: nat)
    requires n > 0
    ensures EncodedSize(n) == 1 + Min(7, n) + EncodedSize(n - Min(7, n))
  {
  }

  lemma DecodeFirstGroup(p: seq<byte>, n: nat)
    requires n > 0 && |p| >= 1 + Min(7, n)
    ensures var m := Min(7, n);
      Decode(p, n) == Then(Group(p[0], p[1..1 + m]), Decode(p[1 + m..], n - m))
  {
  }

  lemma EncodeFirstGroup(g: seq<byte>, s: seq<byte>)
    requires 0 < |g| <= 7 && (|g| == 7 || s == [])
    ensures Encode(g + s) == [Prefix(g)] + Lows(g) + Encode(s)
  {
    assert (g + s)[..|g|] == g && (g + s)[|g|..] == s;
  }

  lemma ConcatEqual(a: byte, b: seq<byte>, c: seq<byte>, a': byte, b': seq<byte>, c': seq<byte>)
    requires |b| == |b'|
    ensures [a] + b + c == [a'] + b' + c' <==> a == a' && b == b' && c == c'
  {
    if [a] + b + c == [a'] + b' + c' {
      assert a == ([a] + b + c)[0] && a' == ([a'] + b' + c')[0];
      assert b == ([a] + b + c)[1..1 + |b|] && b' == ([a'] + b' + c')[1..1 + |b|];
      assert c == ([a] + b + c)[1 + |b|..] && c' == ([a'] + b' + c')[1 + |b|..];
    }
  }

  lemma SevenBitSplits(p: seq<byte>, q: seq<byte>)
    ensures SevenBit(p + q) <==> SevenBit(p) && SevenBit(q)
  {
    if SevenBit(p + q) {
      assert forall k :: 0 <= k < |p| ==> p[k] == (p + q)[k];
      assert forall k :: 0 <= k < |q| ==> q[k] == (p + q)[|p| + k];
    }
  }

  lemma CanonicalSplits(p: seq<byte>, n: nat)
    requires |p| == EncodedSize(n) && n > 0
    ensures var m := Min(7, n);
      Canonical(p, n) <==> p[0] < Mask(m) && SevenBit(p[1..1 + m]) && Canonical(p[1 + m..], n - m)
  {
    hide SevenBit;
    var m := Min(7, n);
    var lows, rest := p[1..1 + m], p[1 + m..];
    assert p == [p[0]] + (lows + rest);
    SevenBitSplits([p[0]], lows + rest);
    SevenBitSplits(lows, rest);
    SevenBitOne(p[0]);
    if n < 7 {
      assert |p| - n % 7 - 1 == 0;
      MaskGrows(n);
    } else if n % 7 != 0 {
      assert (n - 7) % 7 == n % 7;
      assert p[|p| - n % 7 - 1] == rest[|rest| - n % 7 - 1];
    }
  }

  lemma SevenBitOne(b: byte)
    ensures SevenBit([b]) <==> b < 0x80
  {
    assert [b][0] == b;
  }

  lemma MaskGrows(m: nat)
    requires m <= 7
    ensures Mask(m) <= 0x80
  {
  }

  lemma PrefixNothing()
    ensures Prefix([]) == 0
  {
  }

  lemma PrefixGrows(group: seq<byte>, value: byte)
    requires |group| < 7
    ensures Prefix(group + [value]) == if High(value) then Prefix(group) | Mask(|group|) else Prefix(group)
  {
    assert (group + [value])[..|group|] == group;
    OrZero(Prefix(group));
  }

  lemma OrZero(b: byte)
    ensures b | 0 == b
  {
  }

  lemma LowsGrows(group: seq<byte>, value: byte)
    ensures Lows(group + [value]) == Lows(group) + [value & 0x7F]
  {
  }

  /** The first inner loop of encode_payload_7bit_fixed: one group's prefix and low bits. */
  method GatherGroup(input: array<byte>, start: nat, chunk: array<byte>) returns (prefix: byte, size: nat)
    requires start < input.Length && chunk.Length == 7 && input != chunk
    modifies chunk
    ensures size == Min(7, input.Length - start)
    ensures prefix == Prefix(input[start..start + size])
    ensures chunk[..size] == Lows(input[start..start + size])
  {
    prefix, size := 0, 0;
    assert input[start..start] == [];
    hide Prefix, Lows;
    PrefixNothing();
    while size < 7 && start + size < input.Length
      invariant size <= 7 && start + size <= input.Length
      invariant prefix == Prefix(input[start..start + size])
      invariant chunk[..size] == Lows(input[start..start + size])
    {
      var value := input[start + size];
      ghost var group := input[start..start + size];
      assert input[start..start + size + 1] == group + [value];
      PrefixGrows(group, value);
      LowsGrows(group, value);
      if High(value) {
        prefix := prefix | Mask(size);
      }
      chunk[size] := value & 0x7F;
      size := size + 1;
    }
  }

  lemma EncodeNext(input: seq<byte>, start: nat, size: nat)
    requires start < |input| && size == Min(7, |input| - start)
    ensures Encode(input[start..]) ==
            [Prefix(input[start..start + size])] + Lows(input[start..start + size]) + Encode(input[start + size..])
  {
    assert input[start..][..size] == input[start..start + size] && input[start..][size..] == input[start + size..];
  }

  /** The second inner loop: the prefix, then the low bits. */
  method EmitGroup(output: array<byte>, base: nat, prefix: byte, chunk: array<byte>, size: nat)
    requires size <= chunk.Length && base + 1 + size <= output.Length && output != chunk
    modifies output
    ensures output[..base + 1 + size] == old(output[..base]) + ([prefix] + chunk[..size])
  {
    output[base] := prefix;
    for j := 0 to size
      invariant output[..base + 1 + j] == old(output[..base]) + ([prefix] + chunk[..j])
    {
      output[base + 1 + j] := chunk[j];
    }
  }

  lemma SizeNext(done: nat, size: nat, total: nat)
    requires done % 7 == 0 && done < total && size == Min(7, total - done)
    ensures EncodedSize(done + size) == EncodedSize(done) + 1 + size <= EncodedSize(total)
    ensures (done + size) % 7 == 0 || done + size == total
  {
    var q := done / 7;
    GroupsUpTo(done, q, 0);
    GroupsUpTo(done + size, q, size);
    if total - done > 7 {
      assert (total + 6) / 7 >= (done + size + 6) / 7;
    }
  }

  lemma GroupsUpTo(n: nat, q: nat, rest: nat)
    requires n == 7 * q + rest && rest <= 7
    ensures (n + 6) / 7 == q + if rest == 0 then 0 else 1
  {
  }

  /** The firmware's encode_payload_7bit_fixed, at any length. */
  method EncodePayload(input: array<byte>, output: array<byte>)
    requires output.Length == EncodedSize(input.Length) && input != output
    modifies output
    ensures output[..] == Encode(input[..])
  {
    hide Encode, Prefix, Lows;
    var inPos: nat, outPos: nat := 0, 0;
    assert input[0..] == input[..];
    assert output[..0] + Encode(input[0..]) == Encode(input[..]);
    while inPos < input.Length
      invariant inPos <= input.Length && outPos == EncodedSize(inPos) <= output.Length
      invariant inPos % 7 == 0 || inPos == input.Length
      invariant output[..outPos] + Encode(input[inPos..]) == Encode(input[..])
    {
      hide EncodedSize;
      var chunk := new byte[7](_ => 0);
      var prefix, size := GatherGroup(input, inPos, chunk);
      EncodeNext(input[..], inPos, size);
      SizeNext(inPos, size, input.Length);
      ghost var done, rest := output[..outPos], Encode(input[inPos + size..]);
      EmitGroup(output, outPos, prefix, chunk, size);
      inPos, outPos := inPos + size, outPos + 1 + size;
      assert done + ([prefix] + chunk[..size] + rest) == (done + ([prefix] + chunk[..size])) + rest;
    }
    EncodeNothing(input[inPos..]);
  }

  lemma EncodeNothing(s: seq<byte>)
    requires |s| == 0
    ensures Encode(s) == []
  {
  }

  function Then(done: seq<byte>, rest: Option<seq<byte>>): Option<seq<byte>> {
    if rest.None? then None else Some(done + rest.value)
  }

  lemma DecodeNext(p: seq<byte>, start: nat, n: nat, size: nat)
    requires start < |p| && n > 0 && size == Min(7, n)
    ensures Decode(p[start..], n) ==
      if |p| - start < 1 + size then None
      else Then(Group(p[start], p[start + 1..start + 1 + size]), Decode(p[start + 1 + size..], n - size))
  {
    if |p| - start >= 1 + size {
      assert p[start..][1..1 + size] == p[start + 1..start + 1 + size];
      assert p[start..][1 + size..] == p[start + 1 + size..];
    }
  }

  /** The inner loop of decode_payload_7bit_fixed, on the group whose prefix is at `start`. */
  method ScatterGroup(input: array<byte>, start: nat, output: array<byte>, base: nat) returns (ok: bool, size: nat)
    requires input != output && start < input.Length && base < output.Length
    modifies output
    ensures size == Min(7, output.Length - base)
    ensures ok <==> 1 + size <= input.Length - start
    ensures ok ==> output[..base + size] ==
                   old(output[..base]) + Group(input[start], input[start + 1..start + 1 + size])
  {
    size := Min(7, output.Length - base);
    ghost var done := output[..base];
    for j := 0 to size
      invariant start + 1 + j <= input.Length
      invariant output[..base + j] == done + Group(input[start], input[start + 1..start + 1 + j])
    {
      if start + 1 + j >= input.Length {
        return false, size;
      }
      var v := input[start + 1 + j] & 0x7F;
      if Bit(input[start], j) {
        v := v | 0x80;
      }
      output[base + j] := v;
    }
    ok := true;
  }

  /** The firmware's decode_payload_7bit_fixed, at any length. */
  method DecodePayload(input: array<byte>, output: array<byte>) returns (ok: bool)
    requires input != output
    modifies output
    ensures Decode(input[..], output.Length) == if ok then Some(output[..]) else None
  {
    hide Decode, Group;
    var inPos: nat, outPos: nat := 0, 0;
    assert input[0..] == input[..];
    ThenNothing(Decode(input[..], output.Length));
    assert output[..0] == [];
    while inPos < input.Length && outPos < output.Length
      invariant inPos <= input.Length && outPos <= output.Length
      invariant Decode(input[..], output.Length) ==
                Then(output[..outPos], Decode(input[inPos..], output.Length - outPos))
    {
      ghost var done := output[..outPos];
      var more, size := ScatterGroup(input, inPos, output, outPos);
      DecodeNext(input[..], inPos, output.Length - outPos, size);
      if !more {
        return false;
      }
      ghost var group := Group(input[inPos], input[inPos + 1..inPos + 1 + size]);
      inPos, outPos := inPos + 1 + size, outPos + size;
      ThenAssociates(done, group, Decode(input[inPos..], output.Length - outPos));
    }
    ok := outPos == output.Length;
    DecodeEnd(input[inPos..], output.Length - outPos);
    assert ok ==> output[..outPos] + [] == output[..];
  }

  lemma ThenNothing(rest: Option<seq<byte>>)
    ensures Then([], rest) == rest
  {
    if rest.Some? { assert [] + rest.value == rest.value; }
  }

  lemma ThenAssociates(a: seq<byte>, b: seq<byte>, rest: Option<seq<byte>>)
    ensures Then(a, Then(b, rest)) == Then(a + b, rest)
  {
    if rest.Some? { assert a + (b + rest.value) == a + b + rest.value; }
  }

  lemma DecodeEnd(p: seq<byte>, n: nat)
    requires |p| == 0 || n == 0
    ensures Decode(p, n) == if n == 0 then Some([]) else None
  {
  }
}
