/** Unpadded base64url (section 5 of RFC 4648), as `Buffer` writes and reads it. */
module Base64Url {
  import opened Wrappers

  type byte = b: int | 0 <= b < 256

  type sextet = d: int | 0 <= d < 64

  function SextetChar(d: sextet): char {
    if d < 26 then 'A' + d as char
    else if d < 52 then 'a' + (d - 26) as char
    else if d < 62 then '0' + (d - 52) as char
    else if d == 62 then '-'
    else '_'
  }

  /** Reading takes both alphabets of RFC 4648. */
  function CharSextet(c: char): Option<sextet> {
    if 'A' <= c <= 'Z' then Some((c - 'A') as int)
    else if 'a' <= c <= 'z' then Some((c - 'a') as int + 26)
    else if '0' <= c <= '9' then Some((c - '0') as int + 52)
    else if c == '-' || c == '+' then Some(62)
    else if c == '_' || c == '/' then Some(63)
    else None
  }

  function Group(b: seq<byte>): seq<sextet> {
    if b == [] then []
    else if |b| == 1 then [b[0] / 4, b[0] % 4 * 16]
    else if |b| == 2 then [b[0] / 4, b[0] % 4 * 16 + b[1] / 16, b[1] % 16 * 4]
    else [b[0] / 4, b[0] % 4 * 16 + b[1] / 16, b[1] % 16 * 4 + b[2] / 64, b[2] % 64] + Group(b[3..])
  }

  function First(a: sextet, b: sextet): byte { a * 4 + b / 16 }
  function Second(b: sextet, c: sextet): byte { b % 16 * 16 + c / 4 }
  function Third(c: sextet, d: sextet): byte { c % 4 * 64 + d }

  /** A last sextet on its own carries no byte, and bits past the last byte are dropped. */
  function Ungroup(d: seq<sextet>): seq<byte> {
    if |d| <= 1 then []
    else if |d| == 2 then [First(d[0], d[1])]
    else if |d| == 3 then [First(d[0], d[1]), Second(d[1], d[2])]
    else [First(d[0], d[1]), Second(d[1], d[2]), Third(d[2], d[3])] + Ungroup(d[4..])
  }

  function Spell(d: seq<sextet>): string {
    seq(|d|, i requires 0 <= i < |d| => SextetChar(d[i]))
  }

  /** Characters outside the alphabets are passed over. */
  function Sextets(s: string): seq<sextet> {
    if s == [] then []
    else (match CharSextet(s[0]) case Some(d) => [d] case None => []) + Sextets(s[1..])
  }

  function Encode(b: seq<byte>): string { Spell(Group(b)) }

  function Decode(s: string): seq<byte> { Ungroup(Sextets(s)) }

  lemma {:induction false} SextetsOfSpell(d: seq<sextet>)
    ensures Sextets(Spell(d)) == d
  {
    if d != [] {
      assert CharSextet(SextetChar(d[0])) == Some(d[0]);
      assert Spell(d)[1..] == Spell(d[1..]);
      SextetsOfSpell(d[1..]);
    }
  }

  lemma TripleBack(x: byte, y: byte, z: byte)
    ensures x / 4 * 4 + (x % 4 * 16 + y / 16) / 16 == x
    ensures (x % 4 * 16 + y / 16) % 16 * 16 + (y % 16 * 4 + z / 64) / 4 == y
    ensures (y % 16 * 4 + z / 64) % 4 * 64 + z % 64 == z
  {
    assert (x % 4 * 16 + y / 16) / 16 == x % 4 && (x % 4 * 16 + y / 16) % 16 == y / 16;
    assert (y % 16 * 4 + z / 64) / 4 == y % 16 && (y % 16 * 4 + z / 64) % 4 == z / 64;
  }

  lemma {:induction false} UngroupOfGroup(b: seq<byte>)
    ensures Ungroup(Group(b)) == b
  {
    if b != [] {
      TripleBack(b[0], if |b| > 1 then b[1] else 0, if |b| > 2 then b[2] else 0);
      if |b| > 2 {
        UngroupOfGroup(b[3..]);
        assert Group(b)[4..] == Group(b[3..]);
        assert b == [b[0], b[1], b[2]] + b[3..];
      }
    }
  }

  /** Only letters, digits, '-' and '_' are written, and no padding: the text goes into a
      URL as it is. */
  lemma UrlSafe(b: seq<byte>)
    ensures forall c | c in Encode(b) ::
              'A' <= c <= 'Z' || 'a' <= c <= 'z' || '0' <= c <= '9' || c == '-' || c == '_'
  {
    forall c | c in Encode(b)
      ensures 'A' <= c <= 'Z' || 'a' <= c <= 'z' || '0' <= c <= '9' || c == '-' || c == '_'
    {
      var i :| 0 <= i < |Encode(b)| && Encode(b)[i] == c;
      assert c == SextetChar(Group(b)[i]);
    }
  }

  /** The test vectors of section 10 of RFC 4648, without their padding, and one with the
      two characters that are this alphabet's own. */
  lemma TestVectors()
    ensures Encode([]) == "" && Encode([102]) == "Zg" && Encode([102, 111]) == "Zm8"
    ensures Encode([102, 111, 111]) == "Zm9v" && Encode([102, 111, 111, 98]) == "Zm9vYg"
    ensures Encode([251, 255]) == "-_8"
  {
    assert [102, 111, 111][3..] == [] && [102, 111, 111, 98][3..] == [98];
    assert Group([102, 111, 111]) == [25, 38, 61, 47] && Group([98]) == [24, 32];
    assert Group([251, 255]) == [62, 63, 60];
  }

  /** Reading back what was written gives the same bytes. */
  lemma DecodeEncode(b: seq<byte>)
    ensures Decode(Encode(b)) == b
  {
    SextetsOfSpell(Group(b));
    UngroupOfGroup(b);
  }
}
