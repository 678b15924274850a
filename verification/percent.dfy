/** `urllib.parse.quote(s)` as the Physical Intelligence crawler uses it to
    make a job id from a title: the string is UTF-8 encoded and every byte
    outside `A-Z a-z 0-9 _ . - ~ /` becomes `%XX` with upper-case hex. */
module PercentEncoding {
  import opened Wrappers
  import opened Ascii

  type Byte = b: int | 0 <= b < 256

  /** The UTF-8 encoding of one character (a Unicode scalar value). */
  function Utf8(c: char): (r: seq<Byte>)
    ensures 1 <= |r| <= 4
    ensures (c as int < 0x80) <==> |r| == 1
    ensures |r| == 1 ==> r[0] == c as int
    ensures |r| > 1 ==> forall i :: 0 <= i < |r| ==> r[i] >= 0x80
  {
    var n := c as int;
    if n < 0x80 then [n]
    else if n < 0x800 then [0xC0 + n / 64, 0x80 + n % 64]
    else if n < 0x10000 then [0xE0 + n / 4096, 0x80 + (n / 64) % 64, 0x80 + n % 64]
    else [0xF0 + n / 262144, 0x80 + (n / 4096) % 64, 0x80 + (n / 64) % 64, 0x80 + n % 64]
  }

  /** `s.encode("utf-8")` */
  function Utf8Encode(s: string): (r: seq<Byte>)
    ensures |r| >= |s|
    decreases |s|
  {
    if s == [] then [] else Utf8(s[0]) + Utf8Encode(s[1..])
  }

  /** The bytes `quote` leaves as they are with its default `safe="/"`. */
  predicate IsSafe(b: Byte) {
    var c := b as char;
    IsUpper(c) || IsLower(c) || IsDigit(c) || c == '_' || c == '.' || c == '-' || c == '~' || c == '/'
  }

  predicate IsHexDigit(c: char) {
    IsDigit(c) || ('A' <= c <= 'F') || ('a' <= c <= 'f')
  }

  function HexValue(c: char): (v: nat)
    requires IsHexDigit(c)
    ensures v < 16
  {
    if IsDigit(c) then c as int - '0' as int
    else if 'A' <= c <= 'F' then c as int - 'A' as int + 10
    else c as int - 'a' as int + 10
  }

  /** The upper-case hex digit of `n`. */
  function Hex(n: nat): (c: char)
    requires n < 16
    ensures IsHexDigit(c) && !('a' <= c <= 'f') && HexValue(c) == n
  {
    if n < 10 then ('0' as int + n) as char else ('A' as int + n - 10) as char
  }

  /** What one byte becomes in the output. */
  function Piece(b: Byte): (r: string)
    ensures |r| == 1 || |r| == 3
    ensures |r| == 1 <==> IsSafe(b)
    ensures |r| == 1 ==> r[0] as int == b && r[0] != '%'
    ensures |r| == 3 ==>
      r[0] == '%' && IsHexDigit(r[1]) && IsHexDigit(r[2]) && HexValue(r[1]) * 16 + HexValue(r[2]) == b
  {
    if IsSafe(b) then [b as char] else ['%', Hex(b / 16), Hex(b % 16)]
  }

  function QuoteBytes(bs: seq<Byte>): string
    decreases |bs|
  {
    if bs == [] then [] else Piece(bs[0]) + QuoteBytes(bs[1..])
  }

  /** `quote(s)` */
  function Quote(s: string): string {
    QuoteBytes(Utf8Encode(s))
  }

  /** The characters `quote` can produce. */
  predicate IsQuotedChar(c: char) {
    IsUpper(c) || IsLower(c) || IsDigit(c) || c == '_' || c == '.' || c == '-' || c == '~' || c == '/' || c == '%'
  }

  /** Decoding `%XX` escapes; any other character stands for its own code
      if it is ASCII. This is the inverse `quote` is measured against. */
  function Unquote(t: string): (r: Option<seq<Byte>>)
    decreases |t|
  {
    if t == [] then Some([])
    else if t[0] == '%' then
      if |t| >= 3 && IsHexDigit(t[1]) && IsHexDigit(t[2]) then
        var rest :- Unquote(t[3..]);
        Some([HexValue(t[1]) * 16 + HexValue(t[2])] + rest)
      else None
    else if t[0] as int < 0x80 then
      var rest :- Unquote(t[1..]);
      Some([t[0] as int] + rest)
    else None
  }

  lemma UnquotePiece(b: Byte, t: string)
    ensures Unquote(Piece(b) + t) == (match Unquote(t) case None => None case Some(rest) => Some([b] + rest))
  {
    var p := Piece(b);
    if |p| == 1 {
      assert (p + t)[1..] == t;
    } else {
      assert (p + t)[3..] == t;
    }
  }

  /** Decoding the output of `quote` gives back exactly the bytes that
      were encoded. */
  lemma {:induction false} UnquoteQuoteBytes(bs: seq<Byte>)
    ensures Unquote(QuoteBytes(bs)) == Some(bs)
    decreases |bs|
  {
    if bs != [] {
      UnquoteQuoteBytes(bs[1..]);
      UnquotePiece(bs[0], QuoteBytes(bs[1..]));
      assert [bs[0]] + bs[1..] == bs;
    }
  }

  /** The round trip of `quote` on strings: decoding gives the UTF-8 bytes. */
  lemma UnquoteQuote(s: string)
    ensures Unquote(Quote(s)) == Some(Utf8Encode(s))
  {
    UnquoteQuoteBytes(Utf8Encode(s));
  }

  /** `quote` only ever emits safe characters and `%`: no space, no `?`,
      no `#`. */
  lemma {:induction false} QuoteBytesAlphabet(bs: seq<Byte>)
    ensures forall i :: 0 <= i < |QuoteBytes(bs)| ==> IsQuotedChar(QuoteBytes(bs)[i])
    decreases |bs|
  {
    if bs != [] {
      QuoteBytesAlphabet(bs[1..]);
      var p := Piece(bs[0]);
      var t := QuoteBytes(bs[1..]);
      assert forall i :: 0 <= i < |p| ==> IsQuotedChar(p[i]);
      forall i | 0 <= i < |p + t| ensures IsQuotedChar((p + t)[i]) {
        if i >= |p| { assert (p + t)[i] == t[i - |p|]; }
      }
    }
  }

  /** The characters a string may hold for `quote` to return it as is. */
  predicate IsSafeChar(c: char) {
    IsUpper(c) || IsLower(c) || IsDigit(c) || c == '_' || c == '.' || c == '-' || c == '~' || c == '/'
  }

  /** A string of safe characters comes back unchanged. */
  lemma {:induction false} QuoteOfSafe(s: string)
    requires forall i :: 0 <= i < |s| ==> IsSafeChar(s[i])
    ensures Quote(s) == s
    decreases |s|
  {
    if s != [] {
      QuoteOfSafe(s[1..]);
      assert Utf8(s[0]) == [s[0] as int];
      assert Piece(s[0] as int) == [s[0]];
    }
  }

  /** `title.lower().replace(" ", "-")` */
  function Hyphenate(s: string): (r: string)
    ensures |r| == |s|
    ensures forall i :: 0 <= i < |s| ==> r[i] == (if s[i] == ' ' then '-' else s[i])
  {
    seq(|s|, i requires 0 <= i < |s| => if s[i] == ' ' then '-' else s[i])
  }

  /** `_make_job_id(title)` */
  function MakeJobId(title: string): string {
    Quote(Hyphenate(Lower(title)))
  }

  /** The id decodes to the UTF-8 bytes of the lower-cased, hyphenated
      title. */
  lemma MakeJobIdDecodes(title: string)
    ensures Unquote(MakeJobId(title)) == Some(Utf8Encode(Hyphenate(Lower(title))))
  {
    UnquoteQuote(Hyphenate(Lower(title)));
  }

  /** A title of ASCII letters, digits, spaces and `_ . - ~ /` becomes its
      lower-cased form with spaces turned into hyphens, nothing escaped. */
  lemma MakeJobIdOfPlainTitle(title: string)
    requires forall i :: 0 <= i < |title| ==> IsSafeChar(title[i]) || title[i] == ' '
    ensures MakeJobId(title) == Hyphenate(Lower(title))
  {
    var h := Hyphenate(Lower(title));
    forall i | 0 <= i < |h| ensures IsSafeChar(h[i]) {
      assert Lower(title)[i] == ToLower(title[i]);
    }
    QuoteOfSafe(h);
  }

  /** Ids never contain a space. */
  lemma MakeJobIdHasNoSpace(title: string)
    ensures forall i :: 0 <= i < |MakeJobId(title)| ==> MakeJobId(title)[i] != ' '
  {
    QuoteBytesAlphabet(Utf8Encode(Hyphenate(Lower(title))));
  }

  /** Titles differing only in case, or in a space against a hyphen, share
      an id. */
  lemma MakeJobIdCollides()
    ensures MakeJobId("A B") == MakeJobId("a-b") == "a-b"
  {
    MakeJobIdOfPlainTitle("A B");
    MakeJobIdOfPlainTitle("a-b");
    assert Lower("A B") == "a b";
    assert Lower("a-b") == "a-b";
  }
}
