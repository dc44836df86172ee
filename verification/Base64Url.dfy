/** Unpadded base64url (section 5 of RFC 4648), with the strict decoder: no padding, no other
    characters, and unused bits zero.
 */
module Base64Url {
  import opened ByteStrings

  function Letter(i: nat): (b: byte)
    requires i < 64
  {
    if i < 26 then 0x41 + i
    else if i < 52 then 0x61 + (i - 26)
    else if i < 62 then 0x30 + (i - 52)
    else if i == 62 then 0x2D
    else 0x5F
  }

  function Sextet(b: byte): (r: Option<nat>)
    ensures r.Some? ==> r.value < 64
  {
    if 0x41 <= b <= 0x5A then Some(b - 0x41)
    else if 0x61 <= b <= 0x7A then Some(b - 0x61 + 26)
    else if 0x30 <= b <= 0x39 then Some(b - 0x30 + 52)
    else if b == 0x2D then Some(62)
    else if b == 0x5F then Some(63)
    else None
  }

  function Encode(s: bytes): (t: bytes) {
    if s == [] then []
    else if |s| == 1 then [Letter(s[0] / 4), Letter(s[0] % 4 * 16)]
    else if |s| == 2 then [Letter(s[0] / 4), Letter(s[0] % 4 * 16 + s[1] / 16), Letter(s[1] % 16 * 4)]
    else
      [Letter(s[0] / 4), Letter(s[0] % 4 * 16 + s[1] / 16), Letter(s[1] % 16 * 4 + s[2] / 64), Letter(s[2] % 64)]
      + Encode(s[3..])
  }

  function Decode(t: bytes): (r: Option<bytes>) {
    if t == [] then Some([])
    else if |t| == 1 || Sextet(t[0]).None? || Sextet(t[1]).None? then None
    else
      var a, b := Sextet(t[0]).value, Sextet(t[1]).value;
      if |t| == 2 then if b % 16 == 0 then Some([a * 4 + b / 16]) else None
      else if Sextet(t[2]).None? then None
      else
        var c := Sextet(t[2]).value;
        if |t| == 3 then if c % 4 == 0 then Some([a * 4 + b / 16, b % 16 * 16 + c / 4]) else None
        else if Sextet(t[3]).None? || Decode(t[4..]).None? then None
        else
          var d := Sextet(t[3]).value;
          Some([a * 4 + b / 16, b % 16 * 16 + c / 4, c % 4 * 64 + d] + Decode(t[4..]).value)
  }

  lemma LetterSextet(i: nat)
    requires i < 64
    ensures Sextet(Letter(i)) == Some(i)
  {
  }

  lemma SextetLetter(b: byte)
    requires Sextet(b).Some?
    ensures Letter(Sextet(b).value) == b
  {
  }

  // ---- Regrouping bits ----

  lemma SplitByte(x: byte, y: nat)
    requires y < 16
    ensures var m := x % 4 * 16 + y; m < 64 && m % 16 == y && x / 4 * 4 + m / 16 == x
  {
  }

  lemma SplitSecond(x: nat, y: byte, z: nat)
    requires x < 4 && z < 4
    ensures var m, n := x * 16 + y / 16, y % 16 * 4 + z; n < 64 && n % 4 == z && m % 16 * 16 + n / 4 == y
  {
    assert (x * 16 + y / 16) % 16 == y / 16;
  }

  lemma JoinBits(a: nat, b: nat)
    requires a < 64 && b < 64
    ensures var x := a * 4 + b / 16; x / 4 == a && x % 4 == b / 16 && x % 4 * 16 + b % 16 == b
  {
  }

  lemma JoinSecond(b: nat, c: nat)
    requires b < 64 && c < 64
    ensures var y := b % 16 * 16 + c / 4; y / 16 == b % 16 && y % 16 == c / 4 && y % 16 * 4 + c % 4 == c
  {
  }

  lemma {:induction false} DecodeEncode(s: bytes)
    ensures Decode(Encode(s)) == Some(s)
  {
    hide Letter, Sextet;
    if s != [] {
      var x := s[0];
      var y: byte := if |s| >= 2 then s[1] else 0;
      var z: byte := if |s| >= 3 then s[2] else 0;
      SplitByte(x, y / 16);
      SplitSecond(x % 4, y, z / 64);
      LetterSextet(x / 4);
      LetterSextet(x % 4 * 16 + y / 16);
      LetterSextet(y % 16 * 4 + z / 64);
      LetterSextet(z % 64);
      if |s| >= 3 {
        DecodeEncode(s[3..]);
        assert Encode(s)[4..] == Encode(s[3..]);
        assert z / 64 * 64 + z % 64 == z;
        assert s == [x, y, z] + s[3..];
      } else if |s| == 2 {
        assert Decode(Encode(s)).value == [x, y] == s;
      } else {
        assert Decode(Encode(s)).value == [x] == s;
      }
    }
  }

  /** Nothing decodes except what was encoded. */
  lemma {:induction false} DecodedWasEncoded(t: bytes)
    requires Decode(t).Some?
    ensures Encode(Decode(t).value) == t
  {
    hide Letter, Sextet;
    if t != [] {
      SextetLetter(t[0]);
      SextetLetter(t[1]);
      JoinBits(Sextet(t[0]).value, Sextet(t[1]).value);
      if |t| >= 3 {
        SextetLetter(t[2]);
        JoinSecond(Sextet(t[1]).value, Sextet(t[2]).value);
        if |t| >= 4 {
          SextetLetter(t[3]);
          DecodedWasEncoded(t[4..]);
          assert Decode(t).value[3..] == Decode(t[4..]).value;
        }
      }
    }
  }

  // ---- Against the standard ----

  /** Table 2 of RFC 4648: `A` to `Z`, `a` to `z`, `0` to `9`, the hyphen and the underscore. */
  lemma LetterIsAlphabet(i: nat)
    requires i < 63
    ensures Letter(0) == 'A' as int && Letter(25) == 'Z' as int && Letter(26) == 'a' as int && Letter(51) == 'z' as int
    ensures Letter(52) == '0' as int && Letter(61) == '9' as int && Letter(62) == '-' as int && Letter(63) == '_' as int
    ensures i != 25 && i != 51 && i < 61 ==> Letter(i + 1) == Letter(i) + 1
  {
  }

  /** Three bytes and their four letters are the same 24-bit number. */
  lemma GroupMeans(s: bytes)
    requires |s| >= 3
    ensures var t := Encode(s);
            && |t| >= 4 && t[4..] == Encode(s[3..])
            && Sextet(t[0]).Some? && Sextet(t[1]).Some? && Sextet(t[2]).Some? && Sextet(t[3]).Some?
            && 65536 * s[0] as nat + 256 * s[1] as nat + s[2] as nat ==
               262144 * Sextet(t[0]).value + 4096 * Sextet(t[1]).value + 64 * Sextet(t[2]).value + Sextet(t[3]).value
  {
    var a, b, c, d: nat := s[0] / 4, s[0] % 4 * 16 + s[1] / 16, s[1] % 16 * 4 + s[2] / 64, s[2] % 64;
    LetterSextet(a);
    LetterSextet(b);
    LetterSextet(c);
    LetterSextet(d);
    hide Letter, Sextet;
    assert Encode(s)[4..] == Encode(s[3..]);
  }

  /** A last group of one or two bytes is that of the bytes filled up with zeros, without the letters
      that carry none of them. */
  lemma TailMeans(x: byte, y: byte)
    ensures Encode([x]) == Encode([x, 0, 0])[..2]
    ensures Encode([x, y]) == Encode([x, y, 0])[..3]
  {
    hide Letter;
    assert [x, 0, 0][3..] == [] && [x, y, 0][3..] == [];
  }
}
