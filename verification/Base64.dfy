/** Base 64, section 4 of RFC 4648: the definition, and the bounded encoder and decoder of the hash library. */
module Base64 {
  import opened Wrappers

  type Byte = b: nat | b < 256

  // ---------------------------------------------------------------- the definition

  /** The character (as its code) for a 6-bit value. */
  function Alphabet(v: nat): (c: nat)
    requires v < 64
  {
    if v < 26 then 'A' as nat + v
    else if v < 52 then 'a' as nat + (v - 26)
    else if v < 62 then '0' as nat + (v - 52)
    else if v == 62 then '+' as nat
    else '/' as nat
  }

  const PAD := '=' as nat
  const NEWLINE := '\n' as nat

  /** The `k`-th 6-bit value of a 24-bit group. */
  function Sextet(n: nat, k: nat): (v: nat)
    requires k < 4
    ensures v < 64
  {
    if k == 0 then n / 0x4_0000 % 64 else if k == 1 then n / 0x1000 % 64 else if k == 2 then n / 64 % 64 else n % 64
  }

  /** The group of up to three bytes, zeros for the missing ones. */
  function Group(data: seq<Byte>): (n: nat)
    requires 0 < |data|
    ensures n < 0x100_0000
  {
    var b0: nat, b1: nat, b2: nat := data[0], if |data| > 1 then data[1] else 0, if |data| > 2 then data[2] else 0;
    b0 * 0x1_0000 + b1 * 0x100 + b2
  }

  /** The characters of the first group of the data: one more than its bytes. */
  function GroupChars(data: seq<Byte>): (r: seq<nat>)
    requires 0 < |data|
    ensures |r| == if |data| < 3 then |data| + 1 else 4
  {
    var n := Group(data);
    [Alphabet(Sextet(n, 0)), Alphabet(Sextet(n, 1))]
    + (if |data| > 1 then [Alphabet(Sextet(n, 2))] else []) + (if |data| > 2 then [Alphabet(Sextet(n, 3))] else [])
  }

  function Rest(data: seq<Byte>): (r: seq<Byte>)
    ensures |data| > 0 ==> |r| < |data|
  {
    if |data| < 3 then [] else data[3..]
  }

  function Text(data: seq<Byte>): seq<nat>
    decreases |data|
  {
    if |data| == 0 then [] else GroupChars(data) + Text(Rest(data))
  }

  function Pads(n: nat): seq<nat> {
    if n % 3 == 1 then [PAD, PAD] else if n % 3 == 2 then [PAD] else []
  }

  function Encode(data: seq<Byte>): seq<nat> {
    Text(data) + Pads(|data|)
  }

  lemma {:induction false} TextLength(data: seq<Byte>)
    ensures |Text(data)| == |data| + (|data| + 2) / 3
    decreases |data|
  {
    if |data| > 0 {
      TextLength(Rest(data));
    }
  }

  lemma PadsFill(n: nat)
    ensures n + (n + 2) / 3 + |Pads(n)| == (n + 2) / 3 * 4
  {
    var q := n / 3;
    assert n == 3 * q + n % 3;
    assert (n + 2) / 3 == if n % 3 == 0 then q else q + 1;
  }

  lemma EncodedLength(data: seq<Byte>)
    ensures |Encode(data)| == (|data| + 2) / 3 * 4
  {
    hide Text, Pads;
    TextLength(data);
    PadsFill(|data|);
  }

  // ---------------------------------------------------------------- decoding

  const WHITESPACE := 64
  const EQUALS := 65
  const INVALID := 66

  /** The table `d`. */
  function Table(c: nat): (v: nat)
    ensures v <= INVALID
  {
    if 'A' as nat <= c <= 'Z' as nat then c - 'A' as nat
    else if 'a' as nat <= c <= 'z' as nat then c - 'a' as nat + 26
    else if '0' as nat <= c <= '9' as nat then c - '0' as nat + 52
    else if c == '+' as nat then 62
    else if c == '/' as nat then 63
    else if c == PAD then EQUALS
    else if c == NEWLINE then WHITESPACE
    else INVALID
  }

  lemma TableUndoesAlphabet(v: nat)
    requires v < 64
    ensures Table(Alphabet(v)) == v
  {
  }

  /** The 6-bit values in a text, newlines skipped, up to the first pad; None if a foreign character comes before it. */
  function Read(text: seq<nat>): (r: Option<seq<nat>>)
    ensures r.Some? ==> forall i :: 0 <= i < |r.value| ==> r.value[i] < 64
  {
    if text == [] then Some([])
    else
      var v := Table(text[0]);
      if v == EQUALS then Some([])
      else if v == INVALID then None
      else if v == WHITESPACE then Read(text[1..])
      else match Read(text[1..])
           case None => None
           case Some(s) => Some([v] + s)
  }

  function ThreeBytes(m: nat): (r: seq<nat>)
    ensures |r| == 3
  {
    [m / 0x1_0000 % 256, m / 0x100 % 256, m % 256]
  }

  /** The bytes that 6-bit values stand for: three from each four; two from a rest of three, one from a rest of two. */
  function Bytes(s: seq<nat>): seq<nat> {
    if |s| < 2 then []
    else if |s| == 2 then [(s[0] * 64 + s[1]) / 16 % 256]
    else
      var n := (s[0] * 64 + s[1]) * 64 + s[2];
      if |s| == 3 then [n / 0x400 % 256, n / 4 % 256]
      else
        var m := n * 64 + s[3];
        ThreeBytes(m) + Bytes(s[4..])
  }

  lemma {:induction false} BytesLength(s: seq<nat>)
    ensures |Bytes(s)| == |s| * 3 / 4
    decreases |s|
  {
    if |s| >= 4 {
      BytesLength(s[4..]);
    }
  }

  function Decode(text: seq<nat>): Option<seq<nat>> {
    match Read(text)
    case None => None
    case Some(s) => Some(Bytes(s))
  }

  // ---------------------------------------------------------------- decoding undoes encoding

  /** The 6-bit values of the first group. */
  function GroupSextets(data: seq<Byte>): (r: seq<nat>)
    requires 0 < |data|
    ensures forall i :: 0 <= i < |r| ==> r[i] < 64
  {
    var n := Group(data);
    [Sextet(n, 0), Sextet(n, 1)]
    + (if |data| > 1 then [Sextet(n, 2)] else []) + (if |data| > 2 then [Sextet(n, 3)] else [])
  }

  function Sextets(data: seq<Byte>): seq<nat>
    decreases |data|
  {
    if |data| == 0 then [] else GroupSextets(data) + Sextets(Rest(data))
  }

  lemma ReadOne(v: nat, text: seq<nat>, s: seq<nat>)
    requires v < 64 && Read(text) == Some(s)
    ensures Read([Alphabet(v)] + text) == Some([v] + s)
  {
    hide Table, Alphabet;
    TableUndoesAlphabet(v);
    assert ([Alphabet(v)] + text)[1..] == text;
  }

  lemma ReadGroup(data: seq<Byte>, text: seq<nat>, s: seq<nat>)
    requires 0 < |data| && Read(text) == Some(s)
    ensures Read(GroupChars(data) + text) == Some(GroupSextets(data) + s)
  {
    hide Sextet, Alphabet, Read, Group;
    var n := Group(data);
    var t, r := text, s;
    if |data| > 2 {
      ReadOne(Sextet(n, 3), t, r);
      t, r := [Alphabet(Sextet(n, 3))] + t, [Sextet(n, 3)] + r;
    }
    if |data| > 1 {
      ReadOne(Sextet(n, 2), t, r);
      t, r := [Alphabet(Sextet(n, 2))] + t, [Sextet(n, 2)] + r;
    }
    ReadOne(Sextet(n, 1), t, r);
    t, r := [Alphabet(Sextet(n, 1))] + t, [Sextet(n, 1)] + r;
    ReadOne(Sextet(n, 0), t, r);
    assert [Alphabet(Sextet(n, 0))] + t == GroupChars(data) + text;
    assert [Sextet(n, 0)] + r == GroupSextets(data) + s;
  }

  lemma {:induction false} ReadText(data: seq<Byte>, pads: seq<nat>)
    requires pads == [] || pads[0] == PAD
    ensures Read(Text(data) + pads) == Some(Sextets(data))
    decreases |data|
  {
    hide GroupChars, GroupSextets, Rest;
    if |data| == 0 {
      assert Text(data) + pads == pads;
    } else {
      ReadText(Rest(data), pads);
      ReadGroup(data, Text(Rest(data)) + pads, Sextets(Rest(data)));
      assert Text(data) + pads == GroupChars(data) + (Text(Rest(data)) + pads);
    }
  }

  lemma GroupSplits(n: nat)
    requires n < 0x100_0000
    ensures ((Sextet(n, 0) * 64 + Sextet(n, 1)) * 64 + Sextet(n, 2)) * 64 + Sextet(n, 3) == n
    ensures (Sextet(n, 0) * 64 + Sextet(n, 1)) * 64 + Sextet(n, 2) == n / 64
    ensures Sextet(n, 0) * 64 + Sextet(n, 1) == n / 0x1000
  {
    assert n / 0x1000 == n / 64 / 64 && n / 0x4_0000 == n / 64 / 64 / 64;
  }

  lemma GroupJoins(b0: Byte, b1: Byte, b2: Byte)
    ensures var n := (b0 as nat) * 0x1_0000 + (b1 as nat) * 0x100 + b2;
            n / 0x1_0000 % 256 == b0 && n / 0x100 % 256 == b1 && n % 256 == b2
  {
    var n := (b0 as nat) * 0x1_0000 + (b1 as nat) * 0x100 + b2;
    assert n / 0x1_0000 == b0;
    assert n / 0x100 == (b0 as nat) * 0x100 + b1;
    assert n % 0x100 == b2;
  }

  lemma GroupQuotients(n: nat)
    ensures n / 64 / 0x400 == n / 0x1_0000 && n / 64 / 4 == n / 0x100 && n / 0x1000 / 16 == n / 0x1_0000
  {
  }

  lemma BytesOfWhole(data: seq<Byte>, s: seq<nat>)
    requires |data| >= 3
    ensures Bytes(GroupSextets(data) + s) == data[..3] + Bytes(s)
  {
    var n := Group(data);
    GroupSplits(n);
    GroupJoins(data[0], data[1], data[2]);
    hide Sextet, Group;
    assert (GroupSextets(data) + s)[4..] == s;
  }

  /** The bytes of one group come back. */
  lemma BytesOfGroup(data: seq<Byte>, s: seq<nat>)
    requires 0 < |data| && (|data| < 3 ==> s == [])
    ensures Bytes(GroupSextets(data) + s) == (if |data| < 3 then data else data[..3]) + Bytes(s)
  {
    if |data| >= 3 {
      BytesOfWhole(data, s);
      return;
    }
    var n := Group(data);
    GroupSplits(n);
    GroupQuotients(n);
    GroupJoins(data[0], if |data| > 1 then data[1] else 0, 0);
    hide Sextet, Group;
    assert GroupSextets(data) + s == GroupSextets(data);
  }

  /** 6-bit values as one number. */
  function Value(g: seq<nat>): nat {
    if g == [] then 0 else Value(g[..|g| - 1]) * 64 + g[|g| - 1]
  }

  lemma NothingDecoded()
    ensures Bytes([]) == [] && Value([]) == 0
  {
  }

  lemma {:induction false} BytesOfSextets(data: seq<Byte>)
    ensures Bytes(Sextets(data)) == data
    decreases |data|
  {
    hide GroupSextets, Bytes;
    if |data| == 0 {
      NothingDecoded();
    } else {
      BytesOfSextets(Rest(data));
      BytesOfGroup(data, Sextets(Rest(data)));
    }
  }

  /** Decoding undoes encoding, for every byte string. */
  lemma DecodeEncode(data: seq<Byte>)
    ensures Decode(Encode(data)) == Some(data)
  {
    ReadText(data, Pads(|data|));
    BytesOfSextets(data);
  }

  lemma {:induction false} ReadSkipsNewline(s: seq<nat>, t: seq<nat>)
    ensures Read(s + [NEWLINE] + t) == Read(s + t)
  {
    if s == [] {
      assert (s + [NEWLINE] + t)[1..] == t && s + t == t;
    } else {
      assert (s + [NEWLINE] + t)[1..] == s[1..] + [NEWLINE] + t;
      assert (s + t)[1..] == s[1..] + t;
      ReadSkipsNewline(s[1..], t);
    }
  }

  /** A newline anywhere in a text changes nothing. */
  lemma {:induction false} NewlineIgnored(s: seq<nat>, t: seq<nat>)
    ensures Decode(s + [NEWLINE] + t) == Decode(s + t)
  {
    ReadSkipsNewline(s, t);
  }

  // ---------------------------------------------------------------- the encoder

  /** One round of the loop: the characters of the group at `x`, unless there is no room. */
  method EncodeGroup(data: seq<Byte>, x: nat, result: array<nat>, index: nat) returns (status: int, index': nat)
    requires x < |data| && index <= result.Length
    modifies result
    ensures var chars := GroupChars(data[x..]);
            if index + |chars| <= result.Length then
              status == 0 && index' == index + |chars| && result[..index'] == old(result[..index]) + chars
            else status == -1
  {
    index' := index;
    var n: nat := (data[x] as nat) * 0x1_0000;
    if x + 1 < |data| {
      n := n + (data[x + 1] as nat) * 0x100;
    }
    if x + 2 < |data| {
      n := n + data[x + 2];
    }
    assert n == Group(data[x..]);
    var n0, n1, n2, n3 := n / 0x4_0000 % 64, n / 0x1000 % 64, n / 64 % 64, n % 64;
    if index' >= result.Length { return -1, index'; }
    result[index'] := Alphabet(n0);
    index' := index' + 1;
    if index' >= result.Length { return -1, index'; }
    result[index'] := Alphabet(n1);
    index' := index' + 1;
    if x + 1 < |data| {
      if index' >= result.Length { return -1, index'; }
      result[index'] := Alphabet(n2);
      index' := index' + 1;
    }
    if x + 2 < |data| {
      if index' >= result.Length { return -1, index'; }
      result[index'] := Alphabet(n3);
      index' := index' + 1;
    }
    status := 0;
  }

  /** The padding loop. */
  method EncodePads(data: seq<Byte>, result: array<nat>, index: nat) returns (status: int, index': nat)
    requires index <= result.Length
    modifies result
    ensures if index + |Pads(|data|)| <= result.Length then
              status == 0 && index' == index + |Pads(|data|)| && result[..index'] == old(result[..index]) + Pads(|data|)
            else status == -1
  {
    index' := index;
    var padCount := |data| % 3;
    if padCount > 0 {
      while padCount < 3
        invariant |data| % 3 <= padCount <= 3 && index' == index + padCount - |data| % 3 && index' <= result.Length
        invariant result[..index'] == old(result[..index]) + Pads(|data|)[..padCount - |data| % 3]
      {
        if index' >= result.Length { return -1, index'; }
        result[index'] := PAD;
        index' := index' + 1;
        padCount := padCount + 1;
      }
    }
    status := 0;
  }

  function From(data: seq<Byte>, x: nat): seq<Byte> {
    if x < |data| then data[x..] else []
  }

  lemma FromStep(data: seq<Byte>, x: nat)
    requires x < |data|
    ensures Text(From(data, x)) == GroupChars(data[x..]) + Text(From(data, x + 3))
  {
    assert From(data, x + 3) == Rest(data[x..]);
  }

  lemma FromEnds(data: seq<Byte>)
    ensures From(data, 0) == data
    ensures forall x :: x >= |data| ==> Text(From(data, x)) == []
  {
  }

  /** `base64_encode`: 0 exactly when the text and its terminating zero fit, which then are in `result`; else -1. */
  method Base64Encode(data: seq<Byte>, result: array<nat>) returns (status: int)
    modifies result
    ensures status == (if result.Length >= (|data| + 2) / 3 * 4 + 1 then 0 else -1)
    ensures status == 0 ==> |Encode(data)| < result.Length
    ensures status == 0 ==> result[..|Encode(data)|] == Encode(data) && result[|Encode(data)|] == 0
  {
    hide GroupChars, Pads, Text, From;
    EncodedLength(data);
    var index: nat, x: nat := 0, 0;
    FromEnds(data);
    while x < |data|
      invariant index <= result.Length && result[..index] + Text(From(data, x)) == Text(data)
      decreases |data| - x
    {
      FromStep(data, x);
      status, index := EncodeGroup(data, x, result, index);
      if status != 0 {
        return;
      }
      x := x + 3;
    }
    status, index := EncodePads(data, result, index);
    if status != 0 {
      return;
    }
    if index >= result.Length {
      return -1;
    }
    result[index] := 0;
    return 0;
  }

  // ---------------------------------------------------------------- the decoder

  lemma ValueNext(g: seq<nat>, c: nat)
    ensures Value(g + [c]) == Value(g) * 64 + c
  {
    assert (g + [c])[..|g|] == g;
  }

  lemma ValueOf2(a: nat, b: nat)
    ensures Value([a, b]) == a * 64 + b
  {
    assert [a, b] == [] + [a] + [b];
    ValueNext([], a);
    ValueNext([] + [a], b);
  }

  lemma ValueOf3(a: nat, b: nat, c: nat)
    ensures Value([a, b, c]) == (a * 64 + b) * 64 + c
  {
    assert [a, b, c] == [a, b] + [c];
    ValueOf2(a, b);
    ValueNext([a, b], c);
  }

  lemma {:induction false} BytesAppendGroup(s: seq<nat>, g: seq<nat>)
    requires |s| % 4 == 0 && |g| == 4
    ensures Bytes(s + g) == Bytes(s) + Bytes(g)
    decreases |s|
  {
    if |s| > 0 {
      assert (s + g)[4..] == s[4..] + g;
      BytesAppendGroup(s[4..], g);
    } else {
      assert s + g == g;
    }
  }

  lemma {:induction false} BytesAppendRest(s: seq<nat>, g: seq<nat>)
    requires |s| % 4 == 0 && |g| < 4
    ensures Bytes(s + g) == Bytes(s) + Bytes(g)
    decreases |s|
  {
    if |s| > 0 {
      assert (s + g)[4..] == s[4..] + g;
      BytesAppendRest(s[4..], g);
    } else {
      assert s + g == g;
    }
  }

  lemma BytesOfFour(q: seq<nat>, m: nat)
    requires |q| == 4 && m == ((q[0] * 64 + q[1]) * 64 + q[2]) * 64 + q[3]
    ensures Bytes(q) == ThreeBytes(m)
  {
    assert q[4..] == [];
  }

  lemma ValueOfThree(g: seq<nat>)
    requires |g| == 3
    ensures Value(g) == (g[0] * 64 + g[1]) * 64 + g[2]
  {
    assert g == [g[0], g[1], g[2]];
    ValueOf3(g[0], g[1], g[2]);
  }

  lemma BytesOfFilled(g: seq<nat>, c: nat, m: nat)
    requires |g| == 3 && m == Value(g) * 64 + c
    ensures Bytes(g + [c]) == ThreeBytes(m)
  {
    hide Bytes, Value, ThreeBytes;
    ValueOfThree(g);
    BytesOfFour(g + [c], m);
  }

  /** A fourth value completes a group, of three bytes. */
  lemma GroupDone(whole: seq<nat>, g: seq<nat>, c: nat, m: nat)
    requires |whole| % 4 == 0 && |g| == 3 && m == Value(g) * 64 + c
    ensures Bytes(whole + (g + [c])) == Bytes(whole) + ThreeBytes(m)
  {
    hide Bytes, Value, ThreeBytes;
    BytesOfFilled(g, c, m);
    BytesAppendGroup(whole, g + [c]);
  }

  /** A group left unfinished gives two, one or no bytes. */
  lemma GroupLeft(whole: seq<nat>, g: seq<nat>)
    requires |whole| % 4 == 0 && |g| < 4
    ensures Bytes(whole + g) == Bytes(whole) + (if |g| == 3 then [Value(g) / 0x400 % 256, Value(g) / 4 % 256]
                                                else if |g| == 2 then [Value(g) / 16 % 256] else [])
  {
    hide Value;
    BytesAppendRest(whole, g);
    if |g| == 3 {
      assert g == [g[0], g[1], g[2]];
      ValueOf3(g[0], g[1], g[2]);
    } else if |g| == 2 {
      assert g == [g[0], g[1]];
      ValueOf2(g[0], g[1]);
    }
  }

  /** `s` has been read from the first `at` characters, and the rest is still to be read. */
  ghost predicate ReadSoFar(text: seq<nat>, at: nat, s: seq<nat>)
    requires at <= |text|
  {
    Read(text) == match Read(text[at..])
                  case None => None
                  case Some(r) => Some(s + r)
  }

  lemma ReadNext(text: seq<nat>, at: nat, s: seq<nat>)
    requires at < |text| && ReadSoFar(text, at, s)
    ensures var c := Table(text[at]);
            if c == INVALID then Read(text) == None
            else if c == EQUALS then ReadSoFar(text, |text|, s)
            else if c == WHITESPACE then ReadSoFar(text, at + 1, s)
            else ReadSoFar(text, at + 1, s + [c])
  {
    hide Table;
    assert text[at..][1..] == text[at + 1..];
    assert text[|text|..] == [];
    var c := Table(text[at]);
    if c != INVALID && c != EQUALS && c != WHITESPACE && Read(text[at + 1..]).Some? {
      var r := Read(text[at + 1..]).value;
      assert s + ([c] + r) == s + [c] + r;
    }
  }

  lemma ReadStarts(text: seq<nat>)
    ensures ReadSoFar(text, 0, [])
  {
    assert text[0..] == text;
    if Read(text).Some? { assert [] + Read(text).value == Read(text).value; }
  }

  lemma ReadEnds(text: seq<nat>, s: seq<nat>)
    requires ReadSoFar(text, |text|, s)
    ensures Read(text) == Some(s)
  {
    assert text[|text|..] == [];
    assert s + [] == s;
  }

  /** The decoder's variables after the values `whole + g`, of which `g` is the group under way. */
  ghost predicate Decoding(whole: seq<nat>, g: seq<nat>, iter: nat, buf: nat, len: nat, done: seq<nat>) {
    |whole| % 4 == 0 && |g| == iter < 4 && buf == Value(g) && done == Bytes(whole) && len == |done|
  }

  method Put3(out: array<nat>, len: nat, buf: nat)
    requires 3 <= len <= out.Length
    modifies out
    ensures out[..len] == old(out[..len - 3]) + ThreeBytes(buf)
  {
    out[len - 3] := buf / 0x1_0000 % 256;
    out[len - 2] := buf / 0x100 % 256;
    out[len - 1] := buf % 256;
  }

  /** Bytes that do not fit now never will. */
  lemma TooLong(text: seq<nat>, at: nat, s: seq<nat>)
    requires at <= |text| && ReadSoFar(text, at, s)
    ensures Decode(text).Some? ==> |Decode(text).value| >= |Bytes(s)|
  {
    BytesLength(s);
    if Read(text).Some? {
      BytesLength(Read(text).value);
    }
  }

  /** The end of the decoder: the bytes of the unfinished group. */
  method Finish(iter: nat, buf: nat, len: nat, out: array<nat>, ghost whole: seq<nat>, ghost g: seq<nat>)
    returns (status: int)
    requires len <= out.Length && Decoding(whole, g, iter, buf, len, out[..len])
    modifies out
    ensures var bytes := Bytes(whole + g);
            status == (if |bytes| <= out.Length then 0 else -1) && (status == 0 ==> out[..|bytes|] == bytes)
  {
    hide Bytes, Value;
    GroupLeft(whole, g);
    var len' := len;
    if iter == 3 {
      len' := len' + 2;
      if len' > out.Length {
        return -1;
      }
      out[len' - 2] := buf / 0x400 % 256;
      out[len' - 1] := buf / 4 % 256;
    } else if iter == 2 {
      len' := len' + 1;
      if len' > out.Length {
        return -1;
      }
      out[len' - 1] := buf / 16 % 256;
    }
    return 0;
  }

  /** `base64_decode` of a text of 7-bit characters: 0 exactly when no foreign character comes before the first
      pad and the bytes fit, which then are in `out`; else -1. */
  method Base64Decode(text: seq<nat>, out: array<nat>) returns (status: int)
    requires forall i :: 0 <= i < |text| ==> text[i] < 128
    modifies out
    ensures status == (if Decode(text).Some? && |Decode(text).value| <= out.Length then 0 else -1)
    ensures status == 0 ==> out[..|Decode(text).value|] == Decode(text).value
  {
    hide Table, Bytes, Value, ThreeBytes, ReadSoFar, Read;
    var at: nat, iter: nat, buf: nat, len: nat := 0, 0, 0, 0;
    ghost var whole: seq<nat>, g: seq<nat> := [], [];  // the values read so far
    ReadStarts(text);
    NothingDecoded();
    assert whole + g == [];
    while at < |text|
      invariant at <= |text| && ReadSoFar(text, at, whole + g)
      invariant len <= out.Length && Decoding(whole, g, iter, buf, len, out[..len])
    {
      var c := Table(text[at]);
      ReadNext(text, at, whole + g);
      at := at + 1;
      if c == WHITESPACE {
      } else if c == INVALID {
        return -1;
      } else if c == EQUALS {
        at := |text|;
      } else {
        assert whole + (g + [c]) == whole + g + [c];
        ValueNext(g, c);
        buf := buf * 64 + c;
        iter := iter + 1;
        if iter == 4 {
          GroupDone(whole, g, c, buf);
          whole, g := whole + (g + [c]), [];
          assert whole + g == whole;
          len := len + 3;
          if len > out.Length {
            TooLong(text, at, whole);
            return -1;
          }
          Put3(out, len, buf);
          buf, iter := 0, 0;
        } else {
          g := g + [c];
        }
      }
    }
    ReadEnds(text, whole + g);
    status := Finish(iter, buf, len, out, whole, g);
  }

  // ---------------------------------------------------------------- the table and the vectors of RFC 4648

  /** Table 1 of the RFC. */
  const LETTERS := "ABCDEFGHIJKLMNOPQRSTUVWXYZ" + "abcdefghijklmnopqrstuvwxyz" + "0123456789+/"

  lemma UpperLetters(v: nat)
    requires v < 26
    ensures Alphabet(v) == LETTERS[v] as nat
  {
    if v < 9 {} else if v < 18 {} else {}
  }

  lemma LowerLetters(v: nat)
    requires 26 <= v < 52
    ensures Alphabet(v) == LETTERS[v] as nat
  {
    if v < 35 {} else if v < 44 {} else {}
  }

  /** The alphabet is that table. */
  lemma AlphabetIsTable(v: nat)
    requires v < 64
    ensures |LETTERS| == 64 && Alphabet(v) == LETTERS[v] as nat
  {
    if v < 26 {
      UpperLetters(v);
    } else if v < 52 {
      LowerLetters(v);
    }
  }

  /** The decoding table takes characters of the alphabet for their values, '=' and the newline for what they are, and
      all others for foreign. */
  lemma TableMeans(c: nat)
    ensures Table(c) < 64 ==> Alphabet(Table(c)) == c
    ensures (Table(c) == EQUALS <==> c == '=' as nat) && (Table(c) == WHITESPACE <==> c == '\n' as nat)
    ensures Table(c) == INVALID <==> c != '=' as nat && c != '\n' as nat && forall v :: 0 <= v < 64 ==> Alphabet(v) != c
  {
    if Table(c) == INVALID {
      forall v | 0 <= v < 64 ensures Alphabet(v) != c { TableUndoesAlphabet(v); }
    }
  }

  /** A text cannot be read exactly when a foreign character comes before the first '='. */
  lemma {:induction false} ReadFails(text: seq<nat>)
    ensures Read(text) == None <==>
            exists i :: 0 <= i < |text| && Table(text[i]) == INVALID && '=' as nat !in text[..i]
  {
    if text != [] && text[0] != '=' as nat && Table(text[0]) != INVALID {
      var rest := text[1..];
      ReadFails(rest);
      if Read(text) == None {
        var i :| 0 <= i < |rest| && Table(rest[i]) == INVALID && '=' as nat !in rest[..i];
        assert Table(text[i + 1]) == INVALID && text[..i + 1] == [text[0]] + rest[..i];
      } else {
        forall i | 0 <= i < |text| && Table(text[i]) == INVALID ensures '=' as nat in text[..i] {
          assert text[i] == rest[i - 1] && text[..i] == [text[0]] + rest[..i - 1];
        }
      }
    } else if text != [] {
      TableMeans(text[0]);
      assert Table(text[0]) == INVALID ==> text[..0] == [];
    }
  }

  function Ascii(s: string): seq<nat> {
    seq(|s|, i requires 0 <= i < |s| => s[i] as nat)
  }

  lemma FooIs()
    ensures GroupChars([102, 111, 111]) == Ascii("Zm9v")
  {
  }

  lemma BarIs()
    ensures GroupChars([98, 97, 114]) == Ascii("YmFy")
  {
  }

  lemma BaIs()
    ensures GroupChars([98, 97]) == Ascii("YmE")
  {
  }

  lemma BIs()
    ensures GroupChars([98]) == Ascii("Yg")
  {
  }

  lemma {:induction false} TextOfTwo(x: seq<Byte>, y: seq<Byte>)
    requires |x| == 3 && 0 < |y| <= 3
    ensures Text(x + y) == GroupChars(x) + GroupChars(y)
  {
    hide Alphabet, Sextet;
    assert GroupChars(x + y) == GroupChars(x);
    assert Rest(x + y) == y && Rest(y) == [];
    assert Text(y) == GroupChars(y) + [];
  }

  lemma AsciiJoins(s: string, t: string)
    ensures Ascii(s + t) == Ascii(s) + Ascii(t)
  {
  }

  lemma PadsAre()
    ensures Pads(6) == [] && Pads(5) == Ascii("=") && Pads(4) == Ascii("==")
  {
  }

  /** Section 10 of the RFC: texts of all three lengths modulo 3. */
  lemma {:induction false} Vectors()
    ensures Encode([102, 111, 111] + [98, 97, 114]) == Ascii("Zm9v" + "YmFy")      // foobar
    ensures Encode([102, 111, 111] + [98, 97]) == Ascii("Zm9v" + "YmE" + "=")      // fooba
    ensures Encode([102, 111, 111] + [98]) == Ascii("Zm9v" + "Yg" + "==")          // foob
  {
    hide GroupChars, Text, Ascii;
    TextOfTwo([102, 111, 111], [98, 97, 114]);
    TextOfTwo([102, 111, 111], [98, 97]);
    TextOfTwo([102, 111, 111], [98]);
    FooIs();
    BarIs();
    BaIs();
    BIs();
    PadsAre();
    AsciiJoins("Zm9v", "YmFy");
    AsciiJoins("Zm9v", "YmE");
    AsciiJoins("Zm9v", "Yg");
    AsciiJoins("Zm9v" + "YmE", "=");
    AsciiJoins("Zm9v" + "Yg", "==");
    assert Ascii("Zm9v") + Ascii("YmFy") + [] == Ascii("Zm9v") + Ascii("YmFy");
  }
}
