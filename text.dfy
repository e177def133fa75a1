/**
  Text handling of the Afterburner decoder: the fixed 260-byte zero-terminated buffers
  (Utf8Z), the character tests and lowercasing that classification relies on, the
  sanitised fallback key (SafeKey) and the decimal rendering of a GPU index
  (`int.ToString()`).
 */
module Text {
  import opened SharedMemory

  /** `Encoding.UTF8.GetString`, falling back to `Encoding.Default.GetString`: a library
      decoder that never fails. The model takes it as a parameter. */
  type Decoder = seq<byte> -> string

  /** Capacity of every `fixed byte[260]` text field. */
  const TextCapacity: nat := 260

  type TextBuffer = b: seq<byte> | |b| == TextCapacity witness seq(TextCapacity, _ => 0)

  // ---------------------------------------------------------------------------
  // Utf8Z

  /** The first zero byte at or after `i`, or the capacity when there is none. */
  function TerminatorFrom(buf: TextBuffer, i: nat): (n: nat)
    requires i <= TextCapacity
    ensures i <= n <= TextCapacity
    ensures forall j :: i <= j < n ==> buf[j] != 0
    ensures n < TextCapacity ==> buf[n] == 0
    decreases TextCapacity - i
  {
    if i == TextCapacity || buf[i] == 0 then i else TerminatorFrom(buf, i + 1)
  }

  /** Length of the text held in a buffer: the bytes before its first zero, at most 260. */
  function TextLength(buf: TextBuffer): (n: nat)
    ensures n <= TextCapacity
    ensures forall j :: 0 <= j < n ==> buf[j] != 0
    ensures n < TextCapacity ==> buf[n] == 0
  {
    TerminatorFrom(buf, 0)
  }

  /** Any cut point with the two properties above is the text length. */
  lemma TextLengthUnique(buf: TextBuffer, n: nat)
    requires n <= TextCapacity
    requires forall j :: 0 <= j < n ==> buf[j] != 0
    requires n < TextCapacity ==> buf[n] == 0
    ensures TextLength(buf) == n
  {
  }

  /** Utf8Z: the decoded bytes before the first zero; an empty string when there are none. */
  function Utf8Z(buf: TextBuffer, decode: Decoder): (s: string)
  {
    var n := TextLength(buf);
    if n == 0 then "" else decode(buf[..n])
  }

  /** A leading zero byte gives the empty string, whatever follows it. */
  lemma Utf8ZLeadingZero(buf: TextBuffer, decode: Decoder)
    requires buf[0] == 0
    ensures Utf8Z(buf, decode) == ""
  {
    TextLengthUnique(buf, 0);
  }

  /** Only the bytes up to the first zero matter: two buffers that agree there decode alike. */
  lemma Utf8ZIgnoresTail(a: TextBuffer, b: TextBuffer, decode: Decoder)
    requires TextLength(a) < TextCapacity ==> a[..TextLength(a) + 1] == b[..TextLength(a) + 1]
    requires TextLength(a) == TextCapacity ==> a == b
    ensures Utf8Z(a, decode) == Utf8Z(b, decode)
  {
    var n := TextLength(a);
    if n < TextCapacity {
      assert forall j :: 0 <= j <= n ==> a[j] == a[..n + 1][j] == b[..n + 1][j] == b[j];
    }
    TextLengthUnique(b, n);
    assert a[..n] == b[..n];
  }

  /** Zero padding of a producer's text to the buffer capacity. */
  function Padded(t: seq<byte>): (b: TextBuffer)
    requires |t| <= TextCapacity
  {
    t + seq(TextCapacity - |t|, _ => 0)
  }

  /** A text without zero bytes, zero-padded to 260 bytes (or filling all 260 with no
      terminator), is decoded from exactly its own bytes. */
  lemma Utf8ZPadded(t: seq<byte>, decode: Decoder)
    requires 0 < |t| <= TextCapacity
    requires forall j :: 0 <= j < |t| ==> t[j] != 0
    ensures Utf8Z(Padded(t), decode) == decode(t)
  {
    var b := Padded(t);
    assert forall j :: 0 <= j < |t| ==> b[j] == t[j];
    TextLengthUnique(b, |t|);
    assert b[..|t|] == t;
  }

  /** The `while` loop of Utf8Z that counts the bytes before the terminator. */
  method ReadUtf8Z(buf: TextBuffer, decode: Decoder) returns (s: string)
    ensures s == Utf8Z(buf, decode)
  {
    var len := 0;
    while len < TextCapacity && buf[len] != 0
      invariant 0 <= len <= TextCapacity
      invariant forall j :: 0 <= j < len ==> buf[j] != 0
    {
      len := len + 1;
    }
    TextLengthUnique(buf, len);
    if len <= 0 {
      return "";
    }
    s := decode(buf[..len]);
  }

  // ---------------------------------------------------------------------------
  // Characters and substrings

  predicate IsUpper(c: char) { 'A' <= c <= 'Z' }

  predicate IsLetterOrDigit(c: char) { 'a' <= c <= 'z' || 'A' <= c <= 'Z' || '0' <= c <= '9' }

  predicate IsKeyChar(c: char) { 'a' <= c <= 'z' || '0' <= c <= '9' || c == '_' }

  /** `char.IsWhiteSpace`: the Unicode separators plus the control characters U+0009 to U+000D and U+0085. */
  predicate IsWhiteSpace(c: char)
  {
    || '\U{9}' <= c <= '\U{D}'
    || c == ' ' || c == '\U{85}' || c == '\U{A0}' || c == '\U{1680}'
    || '\U{2000}' <= c <= '\U{200A}'
    || c == '\U{2028}' || c == '\U{2029}' || c == '\U{202F}' || c == '\U{205F}' || c == '\U{3000}'
  }

  /** `string.IsNullOrWhiteSpace` on a non-null string: empty, or white space only. */
  predicate IsNullOrWhiteSpace(s: string)
  {
    forall i | 0 <= i < |s| :: IsWhiteSpace(s[i])
  }

  function LowerChar(c: char): (d: char)
    ensures !IsUpper(d)
    ensures IsUpper(c) ==> d as int == c as int + 32
    ensures !IsUpper(c) ==> d == c
  {
    if IsUpper(c) then (c as int + 32) as char else c
  }

  /** `ToLowerInvariant`, on the ASCII letters. */
  function ToLower(s: string): (r: string)
    ensures |r| == |s|
    ensures forall i :: 0 <= i < |s| ==> r[i] == LowerChar(s[i])
  {
    seq(|s|, i requires 0 <= i < |s| => LowerChar(s[i]))
  }

  predicate OccursAt(s: string, sub: string, i: nat)
  {
    i + |sub| <= |s| && s[i..i + |sub|] == sub
  }

  /** Ordinal `string.Contains`. */
  predicate Contains(s: string, sub: string)
  {
    exists i | 0 <= i <= |s| - |sub| :: OccursAt(s, sub, i)
  }

  /** A string cannot contain a text that has a character the string lacks. */
  lemma AbsentCharRulesOut(s: string, sub: string, c: char)
    requires c in sub && c !in s
    ensures !Contains(s, sub)
  {
  }

  // ---------------------------------------------------------------------------
  // SafeKey

  /** What the StringBuilder receives for one character of the lowercased name. */
  function KeyChar(c: char): (d: char)
    ensures IsKeyChar(d)
  {
    var l := LowerChar(c);
    if IsLetterOrDigit(l) then l else '_'
  }

  /** The StringBuilder's content once the `foreach` loop of SafeKey is done. */
  function Sanitized(s: string): (r: string)
  {
    seq(|s|, i requires 0 <= i < |s| => KeyChar(s[i]))
  }

  function TrimStart(s: string): (r: string)
    ensures |r| <= |s| && r == s[|s| - |r|..]
    ensures forall j :: 0 <= j < |s| - |r| ==> s[j] == '_'
    ensures |r| > 0 ==> r[0] != '_'
  {
    if |s| > 0 && s[0] == '_' then TrimStart(s[1..]) else s
  }

  function TrimEnd(s: string): (r: string)
    ensures |r| <= |s| && r == s[..|r|]
    ensures forall j :: |r| <= j < |s| ==> s[j] == '_'
    ensures |r| > 0 ==> r[|r| - 1] != '_'
  {
    if |s| > 0 && s[|s| - 1] == '_' then TrimEnd(s[..|s| - 1]) else s
  }

  /** `Trim('_')`: the longest infix without a leading or trailing underscore. */
  function Trim(s: string): (r: string)
    ensures |r| <= |s|
    ensures |r| > 0 ==> r[0] != '_' && r[|r| - 1] != '_'
  {
    TrimEnd(TrimStart(s))
  }

  /** SafeKey: lowercase, every non-alphanumeric character replaced by `_`, underscores trimmed. */
  function SafeKey(s: string): (k: string)
  {
    Trim(Sanitized(s))
  }

  /** The fallback key is made of lowercase letters, digits and `_` only, neither starts nor
      ends with `_`, and is no longer than the name it came from. */
  lemma SafeKeyShape(s: string)
    ensures var k := SafeKey(s);
      && |k| <= |s|
      && (forall i :: 0 <= i < |k| ==> IsKeyChar(k[i]))
      && (|k| > 0 ==> k[0] != '_' && k[|k| - 1] != '_')
  {
    var t := Sanitized(s);
    assert KeyChars(t);
    var u := TrimStart(t);
    KeyCharsSlice(t, |t| - |u|, |t|);
    var k := TrimEnd(u);
    KeyCharsSlice(u, 0, |k|);
  }

  /** Lowercase letters, digits and `_` only. */
  predicate KeyChars(t: string)
  {
    forall i :: 0 <= i < |t| ==> IsKeyChar(t[i])
  }

  lemma KeyCharsSlice(t: string, lo: nat, hi: nat)
    requires KeyChars(t) && lo <= hi <= |t|
    ensures KeyChars(t[lo..hi])
  {
    assert forall i :: 0 <= i < hi - lo ==> t[lo..hi][i] == t[lo + i];
  }

  /** Sanitising a key that is already safe changes nothing, so SafeKey is idempotent. */
  lemma SafeKeyIdempotent(s: string)
    ensures SafeKey(SafeKey(s)) == SafeKey(s)
  {
    var k := SafeKey(s);
    SafeKeyShape(s);
    assert Sanitized(k) == k;
    assert TrimStart(k) == k;
    assert TrimEnd(k) == k;
  }

  /** The loop of SafeKey: append the sanitised form of each lowercased character, then trim. */
  method BuildSafeKey(s: string) returns (k: string)
    ensures k == SafeKey(s)
  {
    var sb := "";
    for i := 0 to |s|
      invariant |sb| == i
      invariant forall j :: 0 <= j < i ==> sb[j] == KeyChar(s[j])
    {
      sb := sb + [KeyChar(s[i])];
    }
    assert sb == Sanitized(s);
    k := Trim(sb);
  }

  // ---------------------------------------------------------------------------
  // int.ToString()

  predicate IsDigit(c: char) { '0' <= c <= '9' }

  function DigitChar(d: nat): (c: char)
    requires d < 10
    ensures IsDigit(c)
  {
    ('0' as int + d) as char
  }

  /** Decimal digits of a natural number, most significant first, no leading zero. */
  function NatToString(n: nat): (s: string)
    ensures |s| >= 1
    ensures forall i :: 0 <= i < |s| ==> IsDigit(s[i])
    ensures |s| > 1 ==> s[0] != '0'
  {
    if n < 10 then [DigitChar(n)] else NatToString(n / 10) + [DigitChar(n % 10)]
  }

  /** The number a string of decimal digits denotes. */
  function DigitsValue(s: string): nat
    requires forall i :: 0 <= i < |s| ==> IsDigit(s[i])
  {
    if |s| == 0 then 0
    else
      assert IsDigit(s[|s| - 1]);
      10 * DigitsValue(s[..|s| - 1]) + (s[|s| - 1] as int - '0' as int)
  }

  lemma {:induction false} NatToStringRoundTrip(n: nat)
    ensures DigitsValue(NatToString(n)) == n
  {
    if n >= 10 {
      NatToStringRoundTrip(n / 10);
      var s := NatToString(n);
      assert s[..|s| - 1] == NatToString(n / 10);
    }
  }

  /** `int.ToString()` with `-` as the negative sign: the sign for a negative number, then the digits. */
  function IntToString(n: int): (s: string)
    ensures |s| >= 1 && (IsDigit(s[0]) || s[0] == '-')
    ensures forall i :: 0 <= i < |s| ==> IsDigit(s[i]) || (i == 0 && s[i] == '-')
  {
    if n < 0 then "-" + NatToString(-n) else NatToString(n)
  }

  /** Distinct indices give distinct strings. */
  lemma IntToStringInjective(a: int, b: int)
    requires IntToString(a) == IntToString(b)
    ensures a == b
  {
    if a < 0 && b < 0 {
      assert NatToString(-a) == IntToString(a)[1..] == IntToString(b)[1..] == NatToString(-b);
      NatToStringRoundTrip(-a);
      NatToStringRoundTrip(-b);
    } else if a >= 0 && b >= 0 {
      NatToStringRoundTrip(a);
      NatToStringRoundTrip(b);
    }
  }
}
