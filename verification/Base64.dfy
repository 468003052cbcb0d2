/** Base 64 as in section 4 of RFC 4648, with padding, over a concrete alphabet. */
module Base64 {
  import opened Wrappers

  type Byte = x: int | 0 <= x < 256

  predicate IsDigit(c: char) {
    'A' <= c <= 'Z' || 'a' <= c <= 'z' || '0' <= c <= '9' || c == '+' || c == '/'
  }

  function ToChar(d: int): (c: char)
    requires 0 <= d < 64
    ensures IsDigit(c)
  {
    if d < 26 then 'A' + d as char
    else if d < 52 then 'a' + (d - 26) as char
    else if d < 62 then '0' + (d - 52) as char
    else if d == 62 then '+' else '/'
  }

  function FromChar(c: char): (d: int)
    requires IsDigit(c)
    ensures 0 <= d < 64
  {
    if 'A' <= c <= 'Z' then c as int - 'A' as int
    else if 'a' <= c <= 'z' then c as int - 'a' as int + 26
    else if '0' <= c <= '9' then c as int - '0' as int + 52
    else if c == '+' then 62 else 63
  }

  lemma DigitRoundTrip(d: int)
    requires 0 <= d < 64
    ensures FromChar(ToChar(d)) == d
  {
  }

  function Group1(x: Byte): string {
    [ToChar(x / 4), ToChar(x % 4 * 16), '=', '=']
  }

  function Group2(x: Byte, y: Byte): string {
    [ToChar(x / 4), ToChar(x % 4 * 16 + y / 16), ToChar(y % 16 * 4), '=']
  }

  function Group3(x: Byte, y: Byte, z: Byte): string {
    [ToChar(x / 4), ToChar(x % 4 * 16 + y / 16), ToChar(y % 16 * 4 + z / 64), ToChar(z % 64)]
  }

  /** Three bytes make four digits; a last group of one or two bytes is padded. */
  function Encode(b: seq<Byte>): string {
    if b == [] then ""
    else if |b| == 1 then Group1(b[0])
    else if |b| == 2 then Group2(b[0], b[1])
    else Group3(b[0], b[1], b[2]) + Encode(b[3..])
  }

  function First(d0: int, d1: int): Byte
    requires 0 <= d0 < 64 && 0 <= d1 < 64
  {
    d0 * 4 + d1 / 16
  }

  function Second(d1: int, d2: int): Byte
    requires 0 <= d1 < 64 && 0 <= d2 < 64
  {
    d1 % 16 * 16 + d2 / 4
  }

  function Third(d2: int, d3: int): Byte
    requires 0 <= d2 < 64 && 0 <= d3 < 64
  {
    d2 % 4 * 64 + d3
  }

  /**
   Anything but whole groups of digits, the last one possibly padded, is refused.  Unused bits of a padded group are
   ignored.
   */
  function Decode(s: string): Option<seq<Byte>> {
    if s == "" then Some([])
    else if |s| < 4 || !IsDigit(s[0]) || !IsDigit(s[1]) then None
    else
      var d0, d1 := FromChar(s[0]), FromChar(s[1]);
      if |s| == 4 && s[2] == '=' && s[3] == '=' then Some([First(d0, d1)])
      else if !IsDigit(s[2]) then None
      else
        var d2 := FromChar(s[2]);
        if |s| == 4 && s[3] == '=' then Some([First(d0, d1), Second(d1, d2)])
        else if !IsDigit(s[3]) then None
        else
          var d3 := FromChar(s[3]);
          match Decode(s[4..])
          case None => None
          case Some(rest) => Some([First(d0, d1), Second(d1, d2), Third(d2, d3)] + rest)
  }

  lemma GroupRoundTrip(x: Byte, y: Byte, z: Byte)
    ensures First(x / 4, x % 4 * 16 + y / 16) == x
    ensures Second(x % 4 * 16 + y / 16, y % 16 * 4 + z / 64) == y
    ensures Third(y % 16 * 4 + z / 64, z % 64) == z
  {
  }

  lemma Group1Decodes(x: Byte)
    ensures Decode(Group1(x)) == Some([x])
  {
    GroupRoundTrip(x, 0, 0);
    DigitRoundTrip(x / 4);
    DigitRoundTrip(x % 4 * 16);
  }

  lemma Group2Decodes(x: Byte, y: Byte)
    ensures Decode(Group2(x, y)) == Some([x, y])
  {
    GroupRoundTrip(x, y, 0);
    DigitRoundTrip(x / 4);
    DigitRoundTrip(x % 4 * 16 + y / 16);
    DigitRoundTrip(y % 16 * 4);
  }

  lemma Group3Decodes(x: Byte, y: Byte, z: Byte, s: string, rest: seq<Byte>)
    requires Decode(s) == Some(rest)
    ensures Decode(Group3(x, y, z) + s) == Some([x, y, z] + rest)
  {
    GroupRoundTrip(x, y, z);
    DigitRoundTrip(x / 4);
    DigitRoundTrip(x % 4 * 16 + y / 16);
    DigitRoundTrip(y % 16 * 4 + z / 64);
    DigitRoundTrip(z % 64);
    assert (Group3(x, y, z) + s)[4..] == s;
  }

  lemma ThreeAndRest(b: seq<Byte>)
    requires |b| > 2
    ensures [b[0], b[1], b[2]] + b[3..] == b
  {
  }

  lemma {:induction false} RoundTrip(b: seq<Byte>)
    ensures Decode(Encode(b)) == Some(b)
  {
    if |b| == 1 {
      Group1Decodes(b[0]);
      assert b == [b[0]];
    } else if |b| == 2 {
      Group2Decodes(b[0], b[1]);
      assert b == [b[0], b[1]];
    } else if |b| > 2 {
      var rest := b[3..];
      RoundTrip(rest);
      Group3Decodes(b[0], b[1], b[2], Encode(rest), rest);
      ThreeAndRest(b);
    }
  }

  /** Digits and padding only: no colon, no comma, no space. */
  ghost predicate Clean(s: string) {
    forall k :: 0 <= k < |s| ==> IsDigit(s[k]) || s[k] == '='
  }

  lemma GroupsClean(x: Byte, y: Byte, z: Byte)
    ensures Clean(Group1(x)) && Clean(Group2(x, y)) && Clean(Group3(x, y, z))
  {
  }

  lemma {:induction false} EncodeClean(b: seq<Byte>)
    ensures Clean(Encode(b))
    decreases |b|
  {
    if b == [] {
    } else {
      GroupsClean(b[0], if |b| > 1 then b[1] else 0, if |b| > 2 then b[2] else 0);
      if |b| > 2 {
        EncodeClean(b[3..]);
      }
    }
  }

  /** Decoding accepts more than encoding produces. */
  lemma NotCanonical()
    ensures Decode("AB==") == Decode("AA==") == Some([0])
  {
  }

  // ---- what RFC 4648 says ----

  /** The alphabet of Table 1, by character code. */
  lemma AlphabetIsTable1(d: int)
    requires 0 <= d < 64
    ensures ToChar(d) as int ==
            if d <= 25 then 65 + d else if d <= 51 then 97 + (d - 26) else if d <= 61 then 48 + (d - 52)
            else if d == 62 then 43 else 47
    ensures forall c: char :: IsDigit(c) ==> ToChar(FromChar(c)) == c
  {
  }

  /** The test vectors of section 10, from "f" to "foobar". */
  lemma TestVectors()
    ensures Encode([]) == ""
    ensures Encode([102]) == "Zg=="
    ensures Encode([102, 111]) == "Zm8="
    ensures Encode([102, 111, 111]) == "Zm9v"
    ensures Encode([102, 111, 111, 98]) == "Zm9vYg=="
    ensures Encode([102, 111, 111, 98, 97]) == "Zm9vYmE="
    ensures Encode([102, 111, 111, 98, 97, 114]) == "Zm9vYmFy"
  {
  }

  /** Whole groups of four, all digits but for at most two `=` at the end. */
  predicate Padded(s: string) {
    && |s| % 4 == 0
    && (forall k :: 0 <= k < |s| - 2 ==> IsDigit(s[k]))
    && (s != "" ==> var last, previous := s[|s| - 1], s[|s| - 2];
          (IsDigit(last) || last == '=') && (IsDigit(previous) || (previous == '=' && last == '=')))
  }

  lemma {:induction false} DecodeAccepts(s: string)
    ensures Decode(s).Some? <==> Padded(s)
  {
    if |s| <= 4 {
    } else {
      var rest := s[4..];
      DecodeAccepts(rest);
      assert forall k :: 4 <= k < |s| ==> s[k] == rest[k - 4];
    }
  }

  /** The i-th group of four characters spells its bytes: six bits a digit, most significant first. */
  ghost predicate GroupSpells(s: string, v: seq<Byte>, i: nat)
    requires 4 * i + 4 <= |s|
  {
    var c0, c1, c2, c3 := s[4 * i], s[4 * i + 1], s[4 * i + 2], s[4 * i + 3];
    && IsDigit(c0) && IsDigit(c1) && 3 * i < |v| && v[3 * i] == FromChar(c0) * 4 + FromChar(c1) / 16
    && if c2 == '=' then c3 == '=' && |v| == 3 * i + 1
       else
         && IsDigit(c2) && 3 * i + 1 < |v| && v[3 * i + 1] == FromChar(c1) % 16 * 16 + FromChar(c2) / 4
         && if c3 == '=' then |v| == 3 * i + 2
            else IsDigit(c3) && 3 * i + 2 < |v| && v[3 * i + 2] == FromChar(c2) % 4 * 64 + FromChar(c3)
  }

  ghost predicate Spells(s: string, v: seq<Byte>) {
    && |s| % 4 == 0 && |v| <= |s| / 4 * 3
    && forall i :: 0 <= i < |s| / 4 ==> GroupSpells(s, v, i)
  }

  lemma FirstGroupSpells(s: string, v: seq<Byte>)
    requires Decode(s) == Some(v) && s != ""
    ensures |s| >= 4 && GroupSpells(s, v, 0)
    ensures |s| > 4 ==> Decode(s[4..]).Some? && |v| >= 3 && v[3..] == Decode(s[4..]).value
    ensures |s| == 4 ==> |v| <= 3
  {
  }

  /** What is decoded is what the groups spell, and no more. */
  lemma {:induction false} DecodedIsSpelled(s: string, v: seq<Byte>)
    requires Decode(s) == Some(v)
    ensures Spells(s, v)
    decreases |s|
  {
    if s == "" {
    } else {
      FirstGroupSpells(s, v);
      if |s| > 4 {
        DecodedIsSpelled(s[4..], v[3..]);
        RestSpells(s, v, s[4..], v[3..]);
      }
    }
  }

  lemma RestSpells(s: string, v: seq<Byte>, rest: string, tail: seq<Byte>)
    requires |s| > 4 && s[4..] == rest && |v| >= 3 && v[3..] == tail
    requires GroupSpells(s, v, 0) && Spells(rest, tail)
    ensures Spells(s, v)
  {
    forall i | 0 < i < |s| / 4 ensures GroupSpells(s, v, i) {
      SpelledLater(s, v, rest, tail, i);
    }
  }

  lemma SpelledLater(s: string, v: seq<Byte>, rest: string, tail: seq<Byte>, i: nat)
    requires i > 0 && 4 * i + 4 <= |s| && s[4..] == rest && |v| >= 3 && v[3..] == tail
    requires GroupSpells(rest, tail, i - 1)
    ensures GroupSpells(s, v, i)
  {
    var k, j := 4 * (i - 1), 3 * (i - 1);
    assert s[k + 4] == rest[k] && s[k + 5] == rest[k + 1] && s[k + 6] == rest[k + 2] && s[k + 7] == rest[k + 3];
    assert v[j + 3] == tail[j];
    assert j + 1 < |tail| ==> v[j + 4] == tail[j + 1];
    assert j + 2 < |tail| ==> v[j + 5] == tail[j + 2];
  }
}
