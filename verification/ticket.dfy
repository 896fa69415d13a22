/**
 * The ticket codec: a fixed-width byte buffer, its construction from bytes
 * or text with strncpy semantics, swapping two buffers, and its rendering
 * as a SQL literal (quoted when every byte is printable, hexadecimal
 * otherwise).
 */
module Tickets {

  import opened Wrappers

  /** A signed byte, the element type of a ticket buffer. */
  newtype int8 = x: int | -128 <= x < 128

  type Positive = n: nat | 0 < n witness 1

  /** The width of every ticket buffer. It is a compile-time constant of the
    * program whose value this model leaves open. */
  const DataSize: Positive

  function Zeros(n: nat): seq<int8>
  {
    seq(n, _ => 0)
  }

  function Min(a: nat, b: nat): nat
  {
    if a < b then a else b
  }

  // ---------------------------------------------------------------------
  // strncpy

  /** The length of the C string held in `s`: the number of bytes before
    * the first NUL, or all of `s` when it holds none (the NUL that
    * terminates every byte array then comes right after it). */
  function CStrLen(s: seq<int8>): (k: nat)
    ensures k <= |s|
    ensures forall j :: 0 <= j < k ==> s[j] != 0
    ensures k < |s| ==> s[k] == 0
  {
    if s == [] || s[0] == 0 then 0 else 1 + CStrLen(s[1..])
  }

  /** A prefix of `n` non-NUL bytes lies inside the C string. */
  lemma {:induction false} CStrLenAtLeast(s: seq<int8>, n: nat)
    requires n <= |s|
    requires forall j :: 0 <= j < n ==> s[j] != 0
    ensures n <= CStrLen(s)
  {
    if n > 0 {
      CStrLenAtLeast(s[1..], n - 1);
    }
  }

  /** The `n` bytes strncpy leaves in its destination when its source is
    * the NUL-terminated string `src`: the bytes before the first NUL, at
    * most `n` of them, then zeros up to `n`. */
  function StrNCopy(src: seq<int8>, n: nat): seq<int8>
  {
    var p := Min(CStrLen(src), n);
    src[..p] + Zeros(n - p)
  }

  /** Byte by byte: a copied prefix up to the first NUL or `n`, zeros after. */
  lemma StrNCopyAt(src: seq<int8>, n: nat, i: nat)
    requires i < n
    ensures |StrNCopy(src, n)| == n
    ensures i < CStrLen(src) ==> StrNCopy(src, n)[i] == src[i] != 0
    ensures i >= CStrLen(src) ==> StrNCopy(src, n)[i] == 0
  {
  }

  /** Input with no NUL among its first `n` bytes is truncated to exactly
    * those bytes. */
  lemma StrNCopyTruncates(src: seq<int8>, n: nat)
    requires n <= |src|
    requires forall j :: 0 <= j < n ==> src[j] != 0
    ensures StrNCopy(src, n) == src[..n]
  {
    CStrLenAtLeast(src, n);
    assert Zeros(0) == [];
  }

  /** Shorter input without a NUL is kept whole and padded with zeros. */
  lemma StrNCopyPads(src: seq<int8>, n: nat)
    requires |src| < n
    requires forall j :: 0 <= j < |src| ==> src[j] != 0
    ensures StrNCopy(src, n) == src + Zeros(n - |src|)
  {
    CStrLenAtLeast(src, |src|);
    assert src[..|src|] == src;
  }

  /** Copying a buffer that strncpy produced gives it back unchanged, so a
    * ticket that is stored and converted back to a ticket is the same. */
  lemma StrNCopyIdempotent(src: seq<int8>, n: nat)
    ensures StrNCopy(StrNCopy(src, n), n) == StrNCopy(src, n)
  {
    var r := StrNCopy(src, n);
    var p := Min(CStrLen(src), n);
    assert forall j :: 0 <= j < p ==> r[j] == src[j] != 0;
    CStrLenAtLeast(r, p);
    if p < n {
      assert r[p] == 0;
    }
    assert Min(CStrLen(r), n) == p;
    assert r[..p] == src[..p];
  }

  // ---------------------------------------------------------------------
  // QString input: toStdString is the UTF-8 encoding of the text

  /** The signed byte whose unsigned value is `b`. */
  function Byte(b: nat): int8
    requires b < 256
  {
    if b < 128 then b as int8 else (b - 256) as int8
  }

  function Utf8Char(c: char): seq<int8>
  {
    var n := c as int;
    if n < 0x80 then [Byte(n)]
    else if n < 0x800 then [Byte(0xC0 + n / 0x40), Byte(0x80 + n % 0x40)]
    else if n < 0x1_0000 then
      [Byte(0xE0 + n / 0x1000), Byte(0x80 + n / 0x40 % 0x40), Byte(0x80 + n % 0x40)]
    else
      [Byte(0xF0 + n / 0x4_0000), Byte(0x80 + n / 0x1000 % 0x40),
       Byte(0x80 + n / 0x40 % 0x40), Byte(0x80 + n % 0x40)]
  }

  function Utf8(s: string): seq<int8>
  {
    if s == [] then [] else Utf8Char(s[0]) + Utf8(s[1..])
  }

  /** ASCII text encodes to one byte per character, the character's code. */
  lemma {:induction false} Utf8Ascii(s: string)
    requires forall i :: 0 <= i < |s| ==> s[i] as int < 0x80
    ensures |Utf8(s)| == |s|
    ensures forall i :: 0 <= i < |s| ==> Utf8(s)[i] as int == s[i] as int
  {
    if s != [] {
      Utf8Ascii(s[1..]);
    }
  }

  /** The encoding holds a NUL byte exactly where the text holds a NUL
    * character, so text is copied up to its first NUL character. */
  lemma {:induction false} Utf8NulFree(s: string)
    ensures (forall i :: 0 <= i < |s| ==> s[i] != '\0') <==>
            (forall j :: 0 <= j < |Utf8(s)| ==> Utf8(s)[j] != 0)
  {
    if s != [] {
      Utf8NulFree(s[1..]);
      var e := Utf8Char(s[0]);
      assert forall j :: 0 <= j < |e| ==> (e[j] == 0 <==> s[0] == '\0');
      assert Utf8(s) == e + Utf8(s[1..]);
      if forall i :: 0 <= i < |s| ==> s[i] != '\0' {
        assert forall i :: 0 <= i < |s[1..]| ==> s[1..][i] != '\0';
      } else {
        var i :| 0 <= i < |s| && s[i] == '\0';
        if i == 0 {
          assert Utf8(s)[0] == 0;
        } else {
          assert s[1..][i - 1] == '\0';
          var j :| 0 <= j < |Utf8(s[1..])| && Utf8(s[1..])[j] == 0;
          assert Utf8(s)[|e| + j] == 0;
        }
      }
    }
  }

  // ---------------------------------------------------------------------
  // Rendering as a SQL literal

  /** QChar::isPrint on the value of a signed byte: the printable ASCII
    * characters; a negative byte becomes a code point beyond Unicode. */
  predicate IsPrint(c: int8)
  {
    0x20 <= c <= 0x7E
  }

  predicate AllPrintable(b: seq<int8>)
  {
    forall j :: 0 <= j < |b| ==> IsPrint(b[j])
  }

  /** The characters of printable bytes. */
  function Chars(b: seq<int8>): (s: string)
    requires AllPrintable(b)
  {
    seq(|b|, j requires 0 <= j < |b| => b[j] as int as char)
  }

  function HexDigit(d: nat): char
    requires d < 16
  {
    if d < 10 then ('0' as int + d) as char else ('a' as int + d - 10) as char
  }

  /** QString::number(n, 16) for a natural number: lowercase digits, no
    * leading zeros. */
  function HexNat(n: nat): string
  {
    if n < 16 then [HexDigit(n)] else HexNat(n / 16) + [HexDigit(n % 16)]
  }

  /** QString::number(c, 16) for an int: Qt 5 renders a negative value in
    * base 16 as its 64-bit two's complement. */
  function QtHex(c: int): string
    requires -0x1_0000_0000_0000_0000 <= c
  {
    if c >= 0 then HexNat(c) else HexNat(c + 0x1_0000_0000_0000_0000)
  }

  /** What the hex loop appends for one byte: a "0" below 16, then the
    * number in base 16. */
  function HexByte(c: int8): string
  {
    (if c < 16 then "0" else "") + QtHex(c as int)
  }

  function HexDigits(b: seq<int8>): string
  {
    if b == [] then "" else HexByte(b[0]) + HexDigits(b[1..])
  }

  /** The quoted form of a buffer of printable bytes. */
  function Quoted(b: seq<int8>): string
    requires AllPrintable(b)
  {
    "'" + Chars(b) + "'"
  }

  /** The hexadecimal blob form. */
  function HexForm(b: seq<int8>): string
  {
    "X'" + HexDigits(b) + "'"
  }

  /** The literal Ticket::toHex renders for the buffer `b`. */
  function Render(b: seq<int8>): string
  {
    if AllPrintable(b) then Quoted(b) else HexForm(b)
  }

  lemma {:induction false} HexDigitsSnoc(b: seq<int8>, c: int8)
    ensures HexDigits(b + [c]) == HexDigits(b) + HexByte(c)
  {
    if b == [] {
      assert b + [c] == [c];
    } else {
      assert (b + [c])[1..] == b[1..] + [c];
      HexDigitsSnoc(b[1..], c);
    }
  }

  /** One round of the rendering loop keeps the hex form in step with the
    * bytes read so far. */
  lemma HexAppend(b: seq<int8>, c: int8, us: string)
    requires us == "X'" + HexDigits(b)
    ensures (if c < 16 then us + "0" else us) + QtHex(c as int) == "X'" + HexDigits(b + [c])
  {
    HexAppendByte(b, c, us);
    HexBytePieces(c);
    if c < 16 {
      AppendAssoc(us, "0", QtHex(c as int));
    }
  }

  lemma HexAppendByte(b: seq<int8>, c: int8, us: string)
    requires us == "X'" + HexDigits(b)
    ensures us + HexByte(c) == "X'" + HexDigits(b + [c])
  {
    HexDigitsSnoc(b, c);
    AppendAssoc("X'", HexDigits(b), HexByte(c));
  }

  lemma HexBytePieces(c: int8)
    ensures c < 16 ==> HexByte(c) == "0" + QtHex(c as int)
    ensures c >= 16 ==> HexByte(c) == QtHex(c as int)
  {
  }

  lemma AppendAssoc(x: string, y: string, z: string)
    ensures x + y + z == x + (y + z)
  {
  }

  /** Extending a buffer by one byte extends its quoted characters by one. */
  lemma PrintableSnoc(b: seq<int8>, c: int8)
    ensures AllPrintable(b + [c]) == (AllPrintable(b) && IsPrint(c))
    ensures AllPrintable(b + [c]) ==> Chars(b + [c]) == Chars(b) + [c as int as char]
  {
    assert forall j :: 0 <= j < |b| ==> (b + [c])[j] == b[j];
    assert (b + [c])[|b|] == c;
  }

  /** The quoted form is chosen exactly when every byte is printable; one
    * non-printable byte, a zero of the padding included, selects the hex
    * form. */
  lemma RenderForm(b: seq<int8>)
    ensures Render(b)[0] == '\'' <==> AllPrintable(b)
    ensures AllPrintable(b) ==> Render(b) == "'" + Chars(b) + "'"
    ensures !AllPrintable(b) ==> Render(b) == "X'" + HexDigits(b) + "'"
  {
  }

  /** Input whose C string is shorter than the buffer leaves a zero in it,
    * so the ticket always renders in hex form. */
  lemma ShortInputRendersHex(src: seq<int8>)
    requires CStrLen(src) < DataSize
    ensures Render(StrNCopy(src, DataSize)) == HexForm(StrNCopy(src, DataSize))
  {
    StrNCopyAt(src, DataSize, CStrLen(src));
    assert !IsPrint(StrNCopy(src, DataSize)[CStrLen(src)]);
  }

  /** The hex digits of a byte in 0..127: exactly two lowercase digits, the
    * high one first. */
  lemma HexByteAscii(c: int8)
    requires 0 <= c
    ensures HexByte(c) == [HexDigit(c as int / 16), HexDigit(c as int % 16)]
  {
    if c >= 16 {
      assert HexNat(c as int / 16) == [HexDigit(c as int / 16)];
    }
  }

  /** The value of a lowercase hex digit. */
  function DigitValue(ch: char): nat
  {
    if '0' <= ch <= '9' then ch as int - '0' as int
    else if 'a' <= ch <= 'f' then ch as int - 'a' as int + 10
    else 0
  }

  /** Reads hex digits back pairwise, each pair as one signed byte. */
  function DecodeHex(s: string): seq<int8>
  {
    if |s| < 2 then []
    else [Byte(16 * Min(DigitValue(s[0]), 15) + Min(DigitValue(s[1]), 15))] + DecodeHex(s[2..])
  }

  predicate IsLowerHexDigit(ch: char)
  {
    '0' <= ch <= '9' || 'a' <= ch <= 'f'
  }

  /** One byte in 0..127: two lowercase digits that decode to it. */
  lemma HexByteDecodes(c: int8)
    requires 0 <= c
    ensures |HexByte(c)| == 2
    ensures IsLowerHexDigit(HexByte(c)[0]) && IsLowerHexDigit(HexByte(c)[1])
    ensures Byte(16 * Min(DigitValue(HexByte(c)[0]), 15) + Min(DigitValue(HexByte(c)[1]), 15)) == c
  {
    HexByteAscii(c);
    assert DigitValue(HexDigit(c as int / 16)) == c as int / 16;
    assert DigitValue(HexDigit(c as int % 16)) == c as int % 16;
  }

  /** For bytes in 0..127 the digits are two lowercase hex digits per byte
    * and decoding them pairwise gives the bytes back. */
  lemma {:induction false} HexDigitsRoundTrip(b: seq<int8>)
    requires forall j :: 0 <= j < |b| ==> 0 <= b[j]
    ensures |HexDigits(b)| == 2 * |b|
    ensures forall k :: 0 <= k < |HexDigits(b)| ==> IsLowerHexDigit(HexDigits(b)[k])
    ensures DecodeHex(HexDigits(b)) == b
  {
    if b != [] {
      var c := b[0];
      HexByteDecodes(c);
      HexDigitsRoundTrip(b[1..]);
      var h := HexByte(c);
      var rest := HexDigits(b[1..]);
      assert HexDigits(b) == h + rest;
      assert (h + rest)[2..] == rest;
      assert (h + rest)[..2] == h;
    }
  }

  /** A ticket of bytes in 0..127 that is not all printable renders as
    * `X'`, two digits per byte and `'`: 2 * DataSize + 3 characters. */
  lemma HexFormLength(b: seq<int8>)
    requires |b| == DataSize
    requires forall j :: 0 <= j < |b| ==> 0 <= b[j]
    requires !AllPrintable(b)
    ensures |Render(b)| == 2 * DataSize + 3
    ensures Render(b)[..2] == "X'" && Render(b)[|Render(b)| - 1] == '\''
    ensures DecodeHex(Render(b)[2..|Render(b)| - 1]) == b
  {
    HexDigitsRoundTrip(b);
    var h := HexDigits(b);
    assert Render(b)[2..|Render(b)| - 1] == h;
  }

  function Pow16(k: nat): (p: nat)
    ensures p > 0
  {
    if k == 0 then 1 else 16 * Pow16(k - 1)
  }

  /** A number in [16^(k-1), 16^k) has k hex digits. */
  lemma {:induction false} HexNatLength(n: nat, k: nat)
    requires 1 <= k && n < Pow16(k)
    requires k == 1 || Pow16(k - 1) <= n
    ensures |HexNat(n)| == k
  {
    if k > 1 {
      assert Pow16(k - 1) == 16 * Pow16(k - 2);
      assert 16 <= n;
      assert n / 16 < Pow16(k - 1);
      assert k - 1 == 1 || Pow16(k - 2) <= n / 16;
      HexNatLength(n / 16, k - 1);
    }
  }

  /** Under Qt 5 a negative byte is printed as sixteen digits, after the
    * "0" that every value below 16 gets: 17 characters instead of 2, so
    * the hex form no longer has two digits per byte. */
  lemma NegativeByteHex(c: int8)
    requires c < 0
    ensures |HexByte(c)| == 17 && HexByte(c)[0] == '0'
  {
    assert Pow16(16) == 0x1_0000_0000_0000_0000;
    assert Pow16(15) == 0x1000_0000_0000_0000;
    HexNatLength(c as int + 0x1_0000_0000_0000_0000, 16);
  }

  // ---------------------------------------------------------------------
  // Reading a quoted SQL string literal back

  /** Reads the rest of a quoted literal after its opening quote: `''`
    * stands for one quote, a lone quote must close the literal and end the
    * text. */
  function Unquote(s: string): Option<string>
  {
    if s == [] then None
    else if s[0] == '\'' then
      if |s| == 1 then Some([])
      else if s[1] == '\'' then
        match Unquote(s[2..])
        case Some(t) => Some(['\''] + t)
        case None => None
      else None
    else
      match Unquote(s[1..])
      case Some(t) => Some([s[0]] + t)
      case None => None
  }

  /** The text a SQL string literal stands for, if `s` is one. */
  function ParseStringLiteral(s: string): Option<string>
  {
    if s != [] && s[0] == '\'' then Unquote(s[1..]) else None
  }

  /** A ticket whose bytes are all printable and start with a quote
    * renders as text that is not a SQL string literal. */
  lemma QuoteBreaksQuotedForm()
    ensures var b := [0x27 as int8] + seq(DataSize - 1, _ => 0x41 as int8);
            |b| == DataSize && AllPrintable(b) &&
            ParseStringLiteral(Render(b)) == None &&
            (DataSize > 1 ==> Render(b)[..3] == "''A")
  {
    var b := [0x27 as int8] + seq(DataSize - 1, _ => 0x41 as int8);
    assert AllPrintable(b);
    var s := Render(b);
    assert s == "'" + Chars(b) + "'";
    assert Chars(b)[0] == '\'';
    var tail := s[1..];
    assert tail == Chars(b) + "'";
    if DataSize == 1 {
      assert Chars(b) == "'";
      assert tail == "''";
      assert tail[2..] == [];
      assert Unquote(tail[2..]) == None;
      assert Unquote(tail) == None;
    } else {
      assert tail[1] == Chars(b)[1] == 'A';
      assert s[..3] == "''A";
    }
  }

  predicate QuoteFree(s: string)
  {
    forall i :: 0 <= i < |s| ==> s[i] != '\''
  }

  lemma {:induction false} EscapeQuoteFree(t: string)
    requires QuoteFree(t)
    ensures Escape(t) == t
  {
    if t != [] {
      EscapeQuoteFree(t[1..]);
      assert [t[0]] + t[1..] == t;
    }
  }

  /** As written, the quoted form of a printable ticket without quotes
    * reads back as exactly its characters. */
  lemma QuoteFreeRendersQuoted(b: seq<int8>)
    requires AllPrintable(b)
    requires forall j :: 0 <= j < |b| ==> b[j] != 0x27
    ensures ParseStringLiteral(Render(b)) == Some(Chars(b))
  {
    assert QuoteFree(Chars(b));
    EscapeQuoteFree(Chars(b));
    UnquoteEscape(Chars(b));
    assert Render(b)[1..] == Chars(b) + "'";
  }

  /** As written, a printable ticket starting with two quotes renders as a
    * valid literal for other text: one quote, then the rest, one character
    * shorter than the ticket. */
  lemma PairedQuotesShorten()
    requires DataSize >= 2
    ensures var b := [0x27 as int8, 0x27] + seq(DataSize - 2, _ => 0x41 as int8);
            |b| == DataSize && AllPrintable(b) &&
            ParseStringLiteral(Render(b)).Some? &&
            |ParseStringLiteral(Render(b)).value| == DataSize - 1 &&
            ParseStringLiteral(Render(b)).value != Chars(b)
  {
    var b := [0x27 as int8, 0x27] + seq(DataSize - 2, _ => 0x41 as int8);
    assert AllPrintable(b);
    var rest := seq(DataSize - 2, _ => 'A');
    var t := "'" + rest;
    assert QuoteFree(rest);
    EscapeQuoteFree(rest);
    assert Escape(t) == "''" + rest;
    assert Chars(b) == "''" + rest;
    UnquoteEscape(t);
    assert Render(b)[1..] == Escape(t) + "'";
  }

  /** Doubles every quote, as SQL requires inside a string literal. */
  function Escape(s: string): string
  {
    if s == [] then [] else (if s[0] == '\'' then "''" else [s[0]]) + Escape(s[1..])
  }

  /** The quoted form with quotes doubled. */
  function EscapedQuoted(b: seq<int8>): string
    requires AllPrintable(b)
  {
    "'" + Escape(Chars(b)) + "'"
  }

  /** The literal toHex evidently means to produce: the hex form as before,
    * the quoted form with its quotes escaped. */
  function SqlLiteral(b: seq<int8>): string
  {
    if AllPrintable(b) then EscapedQuoted(b) else HexForm(b)
  }

  lemma {:induction false} UnquoteEscape(t: string)
    ensures Unquote(Escape(t) + "'") == Some(t)
  {
    if t != [] {
      UnquoteEscape(t[1..]);
      var rest := Escape(t[1..]) + "'";
      if t[0] == '\'' {
        assert Escape(t) + "'" == "''" + rest;
        assert ("''" + rest)[2..] == rest;
      } else {
        assert Escape(t) + "'" == [t[0]] + rest;
        assert ([t[0]] + rest)[1..] == rest;
      }
      assert [t[0]] + t[1..] == t;
    }
  }

  /** The escaped quoted form reads back as exactly the ticket's characters. */
  lemma EscapedQuotedRoundTrip(b: seq<int8>)
    requires AllPrintable(b)
    ensures ParseStringLiteral(SqlLiteral(b)) == Some(Chars(b))
  {
    UnquoteEscape(Chars(b));
    assert SqlLiteral(b)[1..] == Escape(Chars(b)) + "'";
  }

  // ---------------------------------------------------------------------
  // Byte-array primitives

  /** memset(a, v, a.Length) */
  method MemSet(a: array<int8>, v: int8)
    modifies a
    ensures a[..] == seq(a.Length, _ => v)
  {
    var i := 0;
    while i < a.Length
      invariant 0 <= i <= a.Length
      invariant forall k :: 0 <= k < i ==> a[k] == v
    {
      a[i] := v;
      i := i + 1;
    }
  }

  /** memcpy(dst, src, dst.Length); the two may be the same array. */
  method MemCopy(dst: array<int8>, src: array<int8>)
    requires dst.Length == src.Length
    modifies dst
    ensures dst[..] == old(src[..])
  {
    var i := 0;
    while i < dst.Length
      invariant 0 <= i <= dst.Length
      invariant forall k :: 0 <= k < i ==> dst[k] == old(src[k])
      invariant forall k :: 0 <= k < src.Length ==> src[k] == old(src[k])
    {
      dst[i] := src[i];
      i := i + 1;
    }
  }

  /** strncpy(dst, s, dst.Length) where `s` holds the bytes of `src` and a
    * terminating NUL: copy up to the NUL, then fill with zeros. No byte of
    * the source past the copied prefix and its NUL is read. */
  method StrNCpy(dst: array<int8>, src: seq<int8>)
    modifies dst
    ensures dst[..] == StrNCopy(src, dst.Length)
  {
    var s := src + [0];
    var n := dst.Length;
    var i := 0;
    while i < n && s[i] != 0
      invariant 0 <= i <= n && i <= CStrLen(src)
      invariant forall k :: 0 <= k < i ==> dst[k] == src[k]
    {
      dst[i] := s[i];
      i := i + 1;
    }
    assert i == Min(CStrLen(src), n);
    while i < n
      invariant Min(CStrLen(src), n) <= i <= n
      invariant forall k :: 0 <= k < Min(CStrLen(src), n) ==> dst[k] == src[k]
      invariant forall k :: Min(CStrLen(src), n) <= k < i ==> dst[k] == 0
    {
      dst[i] := 0;
      i := i + 1;
    }
  }

  // ---------------------------------------------------------------------
  // The Ticket class

  class Ticket {
    const data: array<int8>

    ghost predicate Valid()
    {
      data.Length == DataSize
    }

    /** A zero-filled ticket. */
    constructor ()
      ensures Valid() && fresh(data)
      ensures data[..] == Zeros(DataSize)
    {
      var a := new int8[DataSize];
      MemSet(a, 0);
      data := a;
    }

    /** A ticket from a byte array, with strncpy semantics. */
    constructor FromBytes(ba: seq<int8>)
      ensures Valid() && fresh(data)
      ensures data[..] == StrNCopy(ba, DataSize)
    {
      var a := new int8[DataSize];
      StrNCpy(a, ba);
      data := a;
    }

    /** A ticket from text: strncpy of its UTF-8 encoding. */
    constructor FromText(str: string)
      ensures Valid() && fresh(data)
      ensures data[..] == StrNCopy(Utf8(str), DataSize)
    {
      var a := new int8[DataSize];
      StrNCpy(a, Utf8(str));
      data := a;
    }

    /** Exchanges the buffers of two tickets through a temporary copy. */
    static method Swap(l: Ticket, r: Ticket)
      requires l.Valid() && r.Valid()
      modifies l.data, r.data
      ensures l.data[..] == old(r.data[..])
      ensures r.data[..] == old(l.data[..])
    {
      var tmp := new int8[DataSize];
      MemCopy(tmp, l.data);
      MemCopy(l.data, r.data);
      MemCopy(r.data, tmp);
    }

    /** The buffer as a SQL literal: quoted when every byte is printable,
      * hexadecimal otherwise. */
    method ToHex() returns (s: string)
      requires Valid()
      ensures s == Render(data[..])
    {
      var printableStr := "'";
      var unprintStr := "X'";
      var printable := true;
      var i := 0;
      while i < DataSize
        invariant 0 <= i <= DataSize
        invariant printable == AllPrintable(data[..i])
        invariant printable ==> printableStr == "'" + Chars(data[..i])
        invariant unprintStr == "X'" + HexDigits(data[..i])
      {
        var c := data[i];
        assert data[..i + 1] == data[..i] + [c];
        PrintableSnoc(data[..i], c);
        HexAppend(data[..i], c, unprintStr);
        printable := printable && IsPrint(c);
        if printable {
          printableStr := printableStr + [c as int as char];
        }
        if c < 16 {
          unprintStr := unprintStr + "0";
        }
        unprintStr := unprintStr + QtHex(c as int);
        i := i + 1;
      }
      printableStr := printableStr + "'";
      unprintStr := unprintStr + "'";
      assert data[..DataSize] == data[..];
      s := if printable then printableStr else unprintStr;
    }
  }

  /** Swapping twice gives both tickets their own contents back. */
  method SwapTwice(l: Ticket, r: Ticket)
    requires l.Valid() && r.Valid()
    modifies l.data, r.data
    ensures l.data[..] == old(l.data[..]) && r.data[..] == old(r.data[..])
  {
    Ticket.Swap(l, r);
    Ticket.Swap(l, r);
  }
}
