/** The hex printer of `src/decode.rs` and the hex parser of `examples/uart-test.rs`. */
module Hex {
  import opened Words

  const SPACE: byte := 0x20

  type nibble = n: int | 0 <= n < 16

  // Printing

  function Digit(n: nibble): byte {
    if n < 10 then 0x30 + n else 0x57 + n
  }

  function HexByte(b: byte): (text: seq<byte>)
    ensures |text| == 2
  {
    [Digit(b / 16), Digit(b % 16)]
  }

  function HexText(data: seq<byte>): (text: seq<byte>)
    ensures |text| == if data == [] then 0 else 3 * |data| - 1
    decreases |data|
  {
    if data == [] then []
    else
      var n := |data| - 1;
      HexText(data[..n]) + (if n == 0 then [] else [SPACE]) + HexByte(data[n])
  }

  /** How many bytes' text fits a buffer of `room` bytes. */
  function Fit(n: nat, room: nat): nat {
    Min(n, (room + 1) / 3)
  }

  /** Writes the text of as many whole bytes as fit, and nothing after it. */
  method WriteHex(data: seq<byte>, out: array<byte>) returns (i: nat)
    modifies out
    ensures var k := Fit(|data|, out.Length);
            i == |HexText(data[..k])| && out[..i] == HexText(data[..k])
    ensures i <= out.Length && out[i..] == old(out[..])[i..]
  {
    i := 0;
    var k := 0;
    ghost var was := out[..];
    while k < |data|
      invariant k <= |data| && i <= out.Length
      invariant i == |HexText(data[..k])| && out[..i] == HexText(data[..k])
      invariant out[i..] == was[i..]
    {
      var need := if k == 0 then 2 else 3;
      if i + need > out.Length {
        break;
      }
      WriteHexByte(out, i, k > 0, data[k]);
      SubSlice(was, i, |was|, need, |was| - i);
      HexTextGrows(data, k);
      i := i + need;
      k := k + 1;
    }
  }

  method WriteHexByte(out: array<byte>, at: nat, spaced: bool, b: byte)
    requires at + (if spaced then 3 else 2) <= out.Length
    modifies out
    ensures var n := if spaced then 3 else 2;
            && out[..at + n] == old(out[..at]) + (if spaced then [SPACE] else []) + HexByte(b)
            && out[at + n..] == old(out[at..])[n..]
  {
    var i := at;
    if spaced {
      out[i] := SPACE;
      i := i + 1;
    }
    out[i] := Digit(b / 16);
    out[i + 1] := Digit(b % 16);
  }

  lemma HexTextGrows(data: seq<byte>, k: nat)
    requires k < |data|
    ensures HexText(data[..k + 1]) == HexText(data[..k]) + (if k > 0 then [SPACE] else []) + HexByte(data[k])
  {
    assert data[..k + 1][..k] == data[..k];
  }

  // Parsing

  predicate IsSpace(c: byte) {
    c == 0x20 || c == 0x09 || c == 0x0a || c == 0x0c || c == 0x0d
  }

  function Unhex(c: byte): Option<nibble> {
    if 0x30 <= c <= 0x39 then Some(c - 0x30)
    else if 0x61 <= c <= 0x66 then Some(c - 0x57)
    else if 0x41 <= c <= 0x46 then Some(c - 0x37)
    else None
  }

  function Join(hi: nibble, lo: nibble): byte {
    var h: int := hi;
    h * 16 + lo
  }

  /** The parser's run over the rest of the text, with `done` written and maybe a high digit held. */
  function ParseFrom(s: seq<byte>, hi: Option<nibble>, done: seq<byte>, room: nat): Option<seq<byte>>
    decreases |s|
  {
    if s == [] then if hi.Some? || done == [] then None else Some(done)
    else if IsSpace(s[0]) then ParseFrom(s[1..], hi, done, room)
    else
      var d := Unhex(s[0]);
      if d.None? then None
      else if hi.None? then ParseFrom(s[1..], d, done, room)
      else if |done| >= room then None
      else ParseFrom(s[1..], None, done + [Join(hi.value, d.value)], room)
  }

  function ParseHex(s: seq<byte>, room: nat): Option<seq<byte>> {
    ParseFrom(s, None, [], room)
  }

  method ParseHexBytes(s: seq<byte>, out: array<byte>) returns (r: Option<nat>)
    modifies out
    ensures var parsed := ParseHex(s, out.Length);
            && (r.Some? <==> parsed.Some?)
            && (r.Some? ==> r.value == |parsed.value| <= out.Length && out[..r.value] == parsed.value)
  {
    var hi: Option<nibble> := None;
    var n := 0;
    assert s[0..] == s;
    for k := 0 to |s|
      invariant n <= out.Length
      invariant ParseHex(s, out.Length) == ParseFrom(s[k..], hi, out[..n], out.Length)
    {
      ghost var rest := s[k..];
      assert rest[0] == s[k] && rest[1..] == s[k + 1..];
      if IsSpace(s[k]) {
        continue;
      }
      var d := Unhex(s[k]);
      if d.None? {
        return None;
      }
      if hi.Some? {
        if n >= out.Length {
          return None;
        }
        ghost var done := out[..n];
        out[n] := Join(hi.value, d.value);
        n := n + 1;
        assert out[..n] == done + [Join(hi.value, d.value)];
        hi := None;
      } else {
        hi := d;
      }
    }
    r := if hi.Some? || n == 0 then None else Some(n);
  }

  // What the parser accepts

  /** The hex digits of a text, spaces dropped; none if it holds anything else. */
  function Nibbles(s: seq<byte>): Option<seq<nibble>> {
    if s == [] then Some([])
    else
      var rest := Nibbles(s[1..]);
      if IsSpace(s[0]) || rest.None? then rest
      else if Unhex(s[0]).None? then None
      else Some([Unhex(s[0]).value] + rest.value)
  }

  function Pack(ds: seq<nibble>): (data: seq<byte>)
    ensures |data| == |ds| / 2
  {
    if |ds| < 2 then [] else [Join(ds[0], ds[1])] + Pack(ds[2..])
  }

  /**
    Exactly when: a text is accepted if and only if, spaces aside, it is a positive even number of
    hex digits whose bytes fit, and then it stands for those bytes.
   */
  lemma ParsesExactlyWhen(s: seq<byte>, room: nat)
    ensures var ds := Nibbles(s);
            ParseHex(s, room) ==
              if ds.Some? && |ds.value| % 2 == 0 && 0 < |ds.value| / 2 <= room then Some(Pack(ds.value)) else None
  {
    ParseFromExactlyWhen(s, None, [], room);
    if Nibbles(s).Some? {
      assert [] + Nibbles(s).value == Nibbles(s).value;
      assert [] + Pack(Nibbles(s).value) == Pack(Nibbles(s).value);
    }
  }

  lemma PackTwo(hi: nibble, lo: nibble, rest: seq<nibble>, done: seq<byte>)
    ensures done + Pack([hi] + ([lo] + rest)) == done + [Join(hi, lo)] + Pack([] + rest)
    ensures |[hi] + ([lo] + rest)| == |[] + rest| + 2
  {
    var all := [hi] + ([lo] + rest);
    assert all[2..] == rest == [] + rest;
    assert Pack(all) == [Join(hi, lo)] + Pack(rest);
  }

  lemma {:induction false} ParseFromExactlyWhen(s: seq<byte>, hi: Option<nibble>, done: seq<byte>, room: nat)
    requires |done| <= room
    ensures var ds := Nibbles(s);
            ParseFrom(s, hi, done, room) ==
              if ds.None? then None
              else
                var all := (if hi.Some? then [hi.value] else []) + ds.value;
                if |all| % 2 == 0 && 0 < |done| + |all| / 2 <= room then Some(done + Pack(all)) else None
    decreases |s|
  {
    if s == [] {
      assert done + [] == done;
    } else if IsSpace(s[0]) {
      ParseFromExactlyWhen(s[1..], hi, done, room);
    } else if Unhex(s[0]).Some? {
      var d := Unhex(s[0]).value;
      if hi.None? {
        ParseFromExactlyWhen(s[1..], Some(d), done, room);
        if Nibbles(s[1..]).Some? {
          assert [] + ([d] + Nibbles(s[1..]).value) == [d] + Nibbles(s[1..]).value;
        }
      } else {
        var b := Join(hi.value, d);
        if |done| < room {
          ParseFromExactlyWhen(s[1..], None, done + [b], room);
        }
        if Nibbles(s[1..]).Some? {
          PackTwo(hi.value, d, Nibbles(s[1..]).value, done);
        }
      }
    }
  }

  /** `Unhex` takes the digits of either case, and `Digit` prints the lower one. */
  lemma DigitsExactly(c: byte, n: nibble)
    ensures Digit(n) == Ascii("0123456789abcdef")[n]
    ensures Unhex(c) == Some(n) <==> c == Ascii("0123456789abcdef")[n] || c == Ascii("0123456789ABCDEF")[n]
    ensures IsSpace(c) <==> c in Ascii(" \t\n\r") + [0x0c]
  {
    var spaces := Ascii(" \t\n\r");
    assert spaces == [0x20, 0x09, 0x0a, 0x0d];
  }

  /** Where each byte's two digits stand in the text, with one space after each byte but the last. */
  lemma {:induction false} TextAt(data: seq<byte>, k: nat)
    requires k < |data|
    ensures var text := HexText(data);
            && text[3 * k] == Ascii("0123456789abcdef")[data[k] / 16]
            && text[3 * k + 1] == Ascii("0123456789abcdef")[data[k] % 16]
            && (k + 1 < |data| ==> text[3 * k + 2] == ' ' as int)
    decreases |data|
  {
    var n := |data| - 1;
    DigitsExactly(0, data[k] / 16);
    DigitsExactly(0, data[k] % 16);
    if k < n {
      TextAt(data[..n], k);
    }
  }

  // Round trip

  function Unpack(data: seq<byte>): seq<nibble> {
    if data == [] then [] else [data[0] / 16, data[0] % 16] + Unpack(data[1..])
  }

  lemma {:induction false} PackUnpack(data: seq<byte>)
    ensures Pack(Unpack(data)) == data && |Unpack(data)| == 2 * |data|
    decreases |data|
  {
    if data != [] {
      var ds := Unpack(data);
      assert ds[2..] == Unpack(data[1..]);
      PackUnpack(data[1..]);
      assert Join(data[0] / 16, data[0] % 16) == data[0];
    }
  }

  lemma {:induction false} NibblesAppend(a: seq<byte>, b: seq<byte>)
    requires Nibbles(a).Some? && Nibbles(b).Some?
    ensures Nibbles(a + b) == Some(Nibbles(a).value + Nibbles(b).value)
    decreases |a|
  {
    if a == [] {
      assert a + b == b && Nibbles(a) == Some([]);
      assert [] + Nibbles(b).value == Nibbles(b).value;
    } else {
      assert (a + b)[1..] == a[1..] + b;
      NibblesAppend(a[1..], b);
      if !IsSpace(a[0]) {
        var d := Unhex(a[0]).value;
        var rest := Nibbles(a[1..]).value;
        assert [d] + rest + Nibbles(b).value == [d] + (rest + Nibbles(b).value);
      }
    }
  }

  lemma {:induction false} UnpackAppend(a: seq<byte>, b: byte)
    ensures Unpack(a + [b]) == Unpack(a) + [b / 16, b % 16]
    decreases |a|
  {
    if a == [] {
      assert a + [b] == [b] && [b][1..] == [];
    } else {
      assert (a + [b])[1..] == a[1..] + [b];
      UnpackAppend(a[1..], b);
    }
  }

  lemma HexByteNibbles(b: byte)
    ensures Nibbles(HexByte(b)) == Some([b / 16, b % 16])
    ensures Nibbles([SPACE] + HexByte(b)) == Some([b / 16, b % 16])
  {
    var t := HexByte(b);
    assert Unhex(t[0]) == Some(b / 16) && Unhex(t[1]) == Some(b % 16);
    assert t[1..] == [t[1]] && t[1..][1..] == [];
    var lo: seq<nibble> := [b % 16];
    assert lo + [] == lo;
    assert Nibbles(t[1..]) == Some(lo);
    assert [b / 16] + lo == [b / 16, b % 16];
    assert ([SPACE] + t)[1..] == t;
  }

  lemma {:induction false} TextNibbles(data: seq<byte>)
    ensures Nibbles(HexText(data)) == Some(Unpack(data))
    decreases |data|
  {
    if data != [] {
      var n := |data| - 1;
      var last := (if n == 0 then [] else [SPACE]) + HexByte(data[n]);
      TextNibbles(data[..n]);
      HexByteNibbles(data[n]);
      assert n == 0 ==> last == HexByte(data[n]);
      assert HexText(data) == HexText(data[..n]) + last;
      NibblesAppend(HexText(data[..n]), last);
      UnpackAppend(data[..n], data[n]);
      assert data == data[..n] + [data[n]];
    }
  }

  /** What is printed into any buffer that holds at least one byte parses back to the bytes printed. */
  lemma HexRoundTrip(data: seq<byte>, printRoom: nat, parseRoom: nat)
    requires 1 <= Fit(|data|, printRoom) <= parseRoom
    ensures var k := Fit(|data|, printRoom);
            ParseHex(HexText(data[..k]), parseRoom) == Some(data[..k])
  {
    var k := Fit(|data|, printRoom);
    TextNibbles(data[..k]);
    PackUnpack(data[..k]);
    ParsesExactlyWhen(HexText(data[..k]), parseRoom);
  }
}
