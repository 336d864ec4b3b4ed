/** search.criteria.ts: the opaque cursor, base64url of "<timestamp>|<uuid>". */
module CursorCodec {
  import opened Wrappers
  import B = Base64Url
  import D = Digits
  import T = Timestamps

  datatype Cursor = Cursor(sortKey: string, id: string)

  datatype CursorError = CursorInvalid

  // ---------- text and bytes ----------

  predicate Ascii(s: string) {
    forall c | c in s :: c < 128 as char
  }

  function Utf8(s: string): seq<B.byte>
    requires Ascii(s)
  {
    seq(|s|, i requires 0 <= i < |s| => assert s[i] in s; CharByte(s[i]))
  }

  function CharByte(c: char): B.byte
    requires c < 128 as char
  {
    c as int
  }

  /** Every byte outside ASCII reads as the replacement character. */
  function FromUtf8(b: seq<B.byte>): string {
    seq(|b|, i requires 0 <= i < |b| => if b[i] < 128 then b[i] as char else '\U{FFFD}')
  }

  // ---------- uuids ----------

  const UUIDS: nat := D.Pow(16, 32)

  predicate HexAt(s: string, i: nat) {
    i < |s| && D.DigitValue(s[i]).Some?
  }

  predicate DashAt(i: nat) { i == 8 || i == 13 || i == 18 || i == 23 }

  /** The pattern `UUID_RE`. */
  predicate IsUuid(s: string) {
    |s| == 36 && forall i | 0 <= i < 36 :: if DashAt(i) then s[i] == '-' else HexAt(s, i)
  }

  function Dashed(h: string): string
    requires |h| == 32
  {
    h[..8] + "-" + h[8..12] + "-" + h[12..16] + "-" + h[16..20] + "-" + h[20..]
  }

  function Undashed(s: string): string
    requires |s| == 36
  {
    s[..8] + s[9..13] + s[14..18] + s[19..23] + s[24..]
  }

  function PrintUuid(id: nat): string {
    Dashed(D.Padded(16, id, 32))
  }

  /** The `::uuid` cast. */
  function ParseUuid(s: string): Option<nat> {
    if IsUuid(s) then D.Value(16, Undashed(s)) else None
  }

  // ---------- the codec ----------

  function Encode(c: Cursor): string
    requires Ascii(c.sortKey) && Ascii(c.id)
  {
    B.Encode(Utf8(c.sortKey + "|" + c.id))
  }

  /** `lastIndexOf` among the first `n` characters, None for -1. */
  function LastIndexOf(s: string, c: char, n: nat): (r: Option<nat>)
    requires n <= |s|
    ensures r.Some? ==> r.value < n && s[r.value] == c && forall j | r.value < j < n :: s[j] != c
    ensures r.None? ==> forall j | 0 <= j < n :: s[j] != c
  {
    if n == 0 then None
    else if s[n - 1] == c then Some(n - 1)
    else LastIndexOf(s, c, n - 1)
  }

  /** `dateOk` is the engine's `Date` parser accepting a text. */
  function Decode(raw: Option<string>, dateOk: string -> bool): Result<Option<Cursor>, CursorError> {
    match raw
    case None => Ok(None)
    case Some(r) =>
      var decoded := FromUtf8(B.Decode(r));
      match LastIndexOf(decoded, '|', |decoded|)
      case None => Err(CursorInvalid)
      case Some(sep) =>
        var c := Cursor(decoded[..sep], decoded[sep + 1..]);
        if dateOk(c.sortKey) && IsUuid(c.id) then Ok(Some(c)) else Err(CursorInvalid)
  }

  /** The cursor a row hands to the next request. */
  function RowCursor(key: int, id: nat): Cursor
    requires T.Printable(key)
  {
    Cursor(T.Print(key), PrintUuid(id))
  }

  // ---------- round trips ----------

  lemma FromUtf8OfUtf8(s: string)
    requires Ascii(s)
    ensures FromUtf8(Utf8(s)) == s
  {
    forall i | 0 <= i < |s| ensures FromUtf8(Utf8(s))[i] == s[i] { assert s[i] in s; }
  }

  lemma NoBarInUuid(s: string)
    requires IsUuid(s)
    ensures '|' !in s && Ascii(s)
  {
    forall c | c in s ensures c != '|' && c < 128 as char {
      var i :| 0 <= i < |s| && s[i] == c;
      assert if DashAt(i) then s[i] == '-' else HexAt(s, i);
    }
  }

  lemma LastBar(a: string, b: string)
    requires '|' !in b
    ensures var s := a + "|" + b; LastIndexOf(s, '|', |s|) == Some(|a|)
  {
    var s := a + "|" + b;
    assert s[|a|] == '|';
    forall j | |a| < j < |s| ensures s[j] != '|' { assert s[j] == b[j - |a| - 1]; }
  }

  /** What decoding accepts: exactly the texts that are a parseable timestamp, a bar and
      a uuid, split at the last bar. */
  lemma DecodeAccepts(raw: string, dateOk: string -> bool, c: Cursor)
    ensures Decode(Some(raw), dateOk) == Ok(Some(c))
       <==> FromUtf8(B.Decode(raw)) == c.sortKey + "|" + c.id && dateOk(c.sortKey) && IsUuid(c.id)
  {
    var decoded := FromUtf8(B.Decode(raw));
    if Decode(Some(raw), dateOk) == Ok(Some(c)) {
      var sep := LastIndexOf(decoded, '|', |decoded|).value;
      assert decoded == decoded[..sep] + [decoded[sep]] + decoded[sep + 1..];
    }
    if decoded == c.sortKey + "|" + c.id && IsUuid(c.id) {
      NoBarInUuid(c.id);
      LastBar(c.sortKey, c.id);
      assert decoded[..|c.sortKey|] == c.sortKey && decoded[|c.sortKey| + 1..] == c.id;
    }
  }

  lemma DecodeEncode(c: Cursor, dateOk: string -> bool)
    requires Ascii(c.sortKey) && dateOk(c.sortKey) && IsUuid(c.id)
    ensures Ascii(c.id) && Decode(Some(Encode(c)), dateOk) == Ok(Some(c))
  {
    NoBarInUuid(c.id);
    var text := c.sortKey + "|" + c.id;
    B.DecodeEncode(Utf8(text));
    FromUtf8OfUtf8(text);
    DecodeAccepts(Encode(c), dateOk, c);
  }

  lemma UndashDash(h: string)
    requires |h| == 32
    ensures |Dashed(h)| == 36 && Undashed(Dashed(h)) == h
  {
    assert h == h[..8] + h[8..12] + h[12..16] + h[16..20] + h[20..];
  }

  lemma DashedIsUuid(h: string)
    requires |h| == 32 && forall i | 0 <= i < 32 :: h[i] in D.ALPHABET
    ensures IsUuid(Dashed(h))
  {
    assert forall c | c in D.ALPHABET :: D.DigitValue(c).Some?;
  }

  lemma UuidBack(id: nat)
    requires id < UUIDS
    ensures IsUuid(PrintUuid(id)) && ParseUuid(PrintUuid(id)) == Some(id)
  {
    hide D.Padded, D.Value, IsUuid, Dashed, Undashed;
    DashedIsUuid(D.Padded(16, id, 32));
    UndashDash(D.Padded(16, id, 32));
    D.ValuePadded(16, id, 32);
  }

  /** The engine's parser takes every text the statement prints. */
  ghost predicate AcceptsPrinted(dateOk: string -> bool) {
    forall t | T.Printable(t) :: dateOk(T.Print(t))
  }

  /** A row's cursor comes back from the wire as it was, and casts to the row's own id and,
      in the common era, to its own sort key: comparing with the cursor is then comparing
      with the row. */
  lemma RowCursorRoundTrip(key: int, id: nat, dateOk: string -> bool)
    requires T.Printable(key) && id < UUIDS && AcceptsPrinted(dateOk)
    ensures var c := RowCursor(key, id);
            && Ascii(c.sortKey) && Ascii(c.id)
            && Decode(Some(Encode(c)), dateOk) == Ok(Some(c))
            && (T.Parse(c.sortKey) == Some(key) <==> T.CommonEra(key)) && ParseUuid(c.id) == Some(id)
  {
    hide T.Print, T.Parse, T.CommonEra, T.Printable, PrintUuid, ParseUuid, Encode, Decode, IsUuid;
    UuidBack(id);
    T.PrintIsAscii(key);
    T.ParsePrint(key);
    DecodeEncode(RowCursor(key, id), dateOk);
  }
}
