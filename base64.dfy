/**
 * The browser's `btoa` and `atob` on "binary strings" (every character
 * below 256), with the base64 alphabet of section 4 of RFC 4648 and the
 * forgiving decode of the WHATWG Infra standard, and the base64url variant
 * of section 5 of RFC 4648 that the token code builds on top of them.
 */
module Base64 {
  import opened Wrappers

  /** The character of a 6-bit value: `A`..`Z`, `a`..`z`, `0`..`9`, `+`, `/`. */
  function SextetChar(v: int): char
    requires 0 <= v < 64
  {
    if v < 26 then ('A' as int + v) as char
    else if v < 52 then ('a' as int + v - 26) as char
    else if v < 62 then ('0' as int + v - 52) as char
    else if v == 62 then '+'
    else '/'
  }

  predicate IsAlphabetChar(c: char) {
    'A' <= c <= 'Z' || 'a' <= c <= 'z' || '0' <= c <= '9' || c == '+' || c == '/'
  }

  function SextetOf(c: char): (v: int)
    requires IsAlphabetChar(c)
    ensures 0 <= v < 64 && SextetChar(v) == c
  {
    if 'A' <= c <= 'Z' then c as int - 'A' as int
    else if 'a' <= c <= 'z' then c as int - 'a' as int + 26
    else if '0' <= c <= '9' then c as int - '0' as int + 52
    else if c == '+' then 62
    else 63
  }

  lemma SextetCharInAlphabet(v: int)
    requires 0 <= v < 64
    ensures IsAlphabetChar(SextetChar(v)) && SextetOf(SextetChar(v)) == v
  {
  }

  predicate AllSextets(v: seq<int>) {
    forall i :: 0 <= i < |v| ==> 0 <= v[i] < 64
  }

  /** A string `btoa` accepts: every character fits in a byte. */
  predicate IsBinary(s: string) {
    forall i :: 0 <= i < |s| ==> s[i] as int < 256
  }

  /** How many base64 digits `n` bytes need before padding: 4 per 3 bytes, 2 or 3 for a partial group. */
  function DigitCount(n: nat): nat {
    (n / 3) * 4 + (if n % 3 == 0 then 0 else n % 3 + 1)
  }

  /** Digits and padding together fill whole quanta of four. */
  lemma PaddedLength(n: nat)
    ensures (DigitCount(n) + |Padding(n)|) % 4 == 0
  {
    assert n == (n / 3) * 3 + n % 3;
  }

  lemma DigitCountStep(n: nat)
    ensures DigitCount(n) % 4 != 1
    ensures n >= 3 ==> DigitCount(n) == 4 + DigitCount(n - 3)
  {
    assert n == (n / 3) * 3 + n % 3;
    if n >= 3 {
      assert (n - 3) / 3 == n / 3 - 1 && (n - 3) % 3 == n % 3;
    }
  }

  /** The 6-bit groups of the bytes, a partial last group filled with zero bits. */
  function Sextets(s: string): (v: seq<int>)
    requires IsBinary(s)
    ensures AllSextets(v) && |v| == DigitCount(|s|)
    decreases |s|
  {
    if |s| == 0 then []
    else
      var b0 := s[0] as int;
      if |s| == 1 then [b0 / 4, (b0 % 4) * 16]
      else
        var b1 := s[1] as int;
        if |s| == 2 then [b0 / 4, (b0 % 4) * 16 + b1 / 16, (b1 % 16) * 4]
        else
          var b2 := s[2] as int;
          [b0 / 4, (b0 % 4) * 16 + b1 / 16, (b1 % 16) * 4 + b2 / 64, b2 % 64] + Sextets(s[3..])
  }

  function Chars(v: seq<int>): (s: string)
    requires AllSextets(v)
    ensures |s| == |v|
  {
    seq(|v|, i requires 0 <= i < |v| => SextetChar(v[i]))
  }

  function Repeat(c: char, n: nat): (s: string)
    ensures |s| == n && forall i :: 0 <= i < n ==> s[i] == c
  {
    seq(n, _ => c)
  }

  /** How many `=` complete the last quantum of `n` bytes. */
  function PadCount(n: nat): nat {
    if n % 3 == 1 then 2 else if n % 3 == 2 then 1 else 0
  }

  function Padding(n: nat): string {
    Repeat('=', PadCount(n))
  }

  /** `btoa`: None stands for the exception it throws on a character above 255. */
  function Btoa(s: string): (r: Option<string>)
    ensures r.Some? <==> IsBinary(s)
    ensures r.Some? ==> |r.value| % 4 == 0
  {
    if IsBinary(s) then
      PaddedLength(|s|);
      Some(Chars(Sextets(s)) + Padding(|s|))
    else None
  }

  /** The bytes of 6-bit groups: 3 per full group, 1 or 2 for a last group of 2 or 3, leftover bits dropped. */
  function FromSextets(v: seq<int>): (s: string)
    requires AllSextets(v) && |v| % 4 != 1
    decreases |v|
  {
    if |v| == 0 then []
    else if |v| == 2 then [(v[0] * 4 + v[1] / 16) as char]
    else if |v| == 3 then [(v[0] * 4 + v[1] / 16) as char, ((v[1] % 16) * 16 + v[2] / 4) as char]
    else FullGroup(v) + FromSextets(v[4..])
  }

  /** The three bytes of the first four sextets. */
  function FullGroup(v: seq<int>): string
    requires AllSextets(v) && |v| >= 4
  {
    [(v[0] * 4 + v[1] / 16) as char, ((v[1] % 16) * 16 + v[2] / 4) as char, ((v[2] % 4) * 64 + v[3]) as char]
  }

  /** The bit arithmetic of one group: three bytes split into four 6-bit values and joined again. */
  lemma Regroup(b0: int, b1: int, b2: int)
    requires 0 <= b0 < 256 && 0 <= b1 < 256 && 0 <= b2 < 256
    ensures (b0 / 4) * 4 + ((b0 % 4) * 16 + b1 / 16) / 16 == b0
    ensures (((b0 % 4) * 16 + b1 / 16) % 16) * 16 + ((b1 % 16) * 4 + b2 / 64) / 4 == b1
    ensures (((b1 % 16) * 4 + b2 / 64) % 4) * 64 + b2 % 64 == b2
  {
    var x, y := (b0 % 4) * 16 + b1 / 16, (b1 % 16) * 4 + b2 / 64;
    assert b0 == (b0 / 4) * 4 + b0 % 4 && 0 <= b0 % 4 < 4;
    assert b1 == (b1 / 16) * 16 + b1 % 16 && 0 <= b1 / 16 < 16 && 0 <= b1 % 16 < 16;
    assert b2 == (b2 / 64) * 64 + b2 % 64 && 0 <= b2 / 64 < 4;
    assert x / 16 == b0 % 4 && x % 16 == b1 / 16;
    assert y / 4 == b1 % 16 && y % 4 == b2 / 64;
  }

  /** A sextet sequence of at least one full group decodes group by group. */
  lemma FromSextetsSplit(v: seq<int>)
    requires AllSextets(v) && |v| >= 4 && |v| % 4 != 1
    ensures FromSextets(v) == FromSextets(v[..4]) + FromSextets(v[4..])
  {
    UnfoldFullGroup(v);
    UnfoldFullGroup(v[..4]);
    assert v[..4][4..] == [];
    FullGroupOfHead(v);
  }

  lemma UnfoldFullGroup(v: seq<int>)
    requires AllSextets(v) && |v| >= 4 && |v| % 4 != 1
    ensures FromSextets(v) == FullGroup(v) + FromSextets(v[4..])
  {
  }

  lemma FullGroupOfHead(v: seq<int>)
    requires AllSextets(v) && |v| >= 4
    ensures FullGroup(v[..4]) == FullGroup(v)
  {
    var head := v[..4];
    assert head[0] == v[0] && head[1] == v[1] && head[2] == v[2] && head[3] == v[3];
  }

  /** One full group: four sextets decode to the three bytes they came from. */
  lemma GroupRoundTrip(c0: char, c1: char, c2: char)
    requires c0 as int < 256 && c1 as int < 256 && c2 as int < 256
    ensures var b0, b1, b2 := c0 as int, c1 as int, c2 as int;
      FromSextets([b0 / 4, (b0 % 4) * 16 + b1 / 16, (b1 % 16) * 4 + b2 / 64, b2 % 64]) == [c0, c1, c2]
  {
    var b0, b1, b2 := c0 as int, c1 as int, c2 as int;
    Regroup(b0, b1, b2);
    var v := [b0 / 4, (b0 % 4) * 16 + b1 / 16, (b1 % 16) * 4 + b2 / 64, b2 % 64];
    assert v[4..] == [];
  }

  /** Strings of one or two bytes: a last group of 2 or 3 sextets. */
  lemma ShortRoundTrip(s: string)
    requires IsBinary(s) && 1 <= |s| <= 2
    ensures FromSextets(Sextets(s)) == s
  {
    var b0 := s[0] as int;
    if |s| == 1 {
      assert Sextets(s) == [b0 / 4, (b0 % 4) * 16];
      OneByteRoundTrip(s[0]);
      assert s == [s[0]];
    } else {
      var b1 := s[1] as int;
      assert Sextets(s) == [b0 / 4, (b0 % 4) * 16 + b1 / 16, (b1 % 16) * 4];
      TwoBytesRoundTrip(s[0], s[1]);
      assert s == [s[0], s[1]];
    }
  }

  lemma OneByteRoundTrip(c0: char)
    requires c0 as int < 256
    ensures var b0 := c0 as int; FromSextets([b0 / 4, (b0 % 4) * 16]) == [c0]
  {
    Regroup(c0 as int, 0, 0);
  }

  lemma TwoBytesRoundTrip(c0: char, c1: char)
    requires c0 as int < 256 && c1 as int < 256
    ensures var b0, b1 := c0 as int, c1 as int;
      FromSextets([b0 / 4, (b0 % 4) * 16 + b1 / 16, (b1 % 16) * 4]) == [c0, c1]
  {
    Regroup(c0 as int, c1 as int, 0);
  }

  /** The sextets of the first three bytes. */
  function FirstGroup(s: string): seq<int>
    requires IsBinary(s) && |s| >= 3
  {
    var b0, b1, b2 := s[0] as int, s[1] as int, s[2] as int;
    [b0 / 4, (b0 % 4) * 16 + b1 / 16, (b1 % 16) * 4 + b2 / 64, b2 % 64]
  }

  /** A full first group followed by sextets that decode to the remaining bytes. */
  lemma GroupThenRest(s: string, w: seq<int>)
    requires IsBinary(s) && |s| >= 3
    requires AllSextets(w) && |w| % 4 != 1 && FromSextets(w) == s[3..]
    ensures AllSextets(FirstGroup(s) + w) && |FirstGroup(s) + w| % 4 != 1
    ensures FromSextets(FirstGroup(s) + w) == s
  {
    var g := FirstGroup(s);
    var v := g + w;
    FirstGroupRoundTrip(s);
    assert v[..4] == g && v[4..] == w;
    FromSextetsSplit(v);
    assert s == s[..3] + s[3..];
  }

  /** The first group's sextets decode to the first three bytes. */
  lemma FirstGroupRoundTrip(s: string)
    requires IsBinary(s) && |s| >= 3
    ensures AllSextets(FirstGroup(s)) && |FirstGroup(s)| == 4
    ensures FromSextets(FirstGroup(s)) == s[..3]
  {
    GroupRoundTrip(s[0], s[1], s[2]);
    assert s[..3] == [s[0], s[1], s[2]];
  }

  /** Regrouping the bits gives the bytes back. */
  lemma {:induction false} SextetsRoundTrip(s: string)
    requires IsBinary(s)
    ensures |Sextets(s)| % 4 != 1
    ensures FromSextets(Sextets(s)) == s
    decreases |s|
  {
    DigitCountStep(|s|);
    if 1 <= |s| <= 2 {
      ShortRoundTrip(s);
    } else if |s| >= 3 {
      assert IsBinary(s[3..]);
      SextetsRoundTrip(s[3..]);
      assert Sextets(s) == FirstGroup(s) + Sextets(s[3..]);
      GroupThenRest(s, Sextets(s[3..]));
    }
  }

  predicate IsAsciiWhitespace(c: char) {
    c == '\t' || c == '\n' || c == '\U{C}' || c == '\r' || c == ' '
  }

  function RemoveAsciiWhitespace(s: string): (t: string)
    ensures |t| <= |s|
    ensures forall i :: 0 <= i < |t| ==> !IsAsciiWhitespace(t[i])
  {
    if s == [] then []
    else (if IsAsciiWhitespace(s[0]) then [] else [s[0]]) + RemoveAsciiWhitespace(s[1..])
  }

  lemma {:induction false} NoWhitespaceKept(s: string)
    requires forall i :: 0 <= i < |s| ==> !IsAsciiWhitespace(s[i])
    ensures RemoveAsciiWhitespace(s) == s
  {
    if s != [] {
      NoWhitespaceKept(s[1..]);
    }
  }

  /** When the length is a multiple of 4, one or two trailing `=` are removed. */
  function StripPadding(t: string): string {
    if |t| % 4 != 0 then t
    else if |t| >= 2 && t[|t| - 2] == '=' && t[|t| - 1] == '=' then t[..|t| - 2]
    else if |t| >= 1 && t[|t| - 1] == '=' then t[..|t| - 1]
    else t
  }

  /**
   * `atob`: whitespace removed, padding stripped, then a length that leaves
   * remainder 1, or any character outside the alphabet (a surviving `=`
   * included), makes it throw (None).
   */
  function Atob(s: string): (r: Option<string>)
    ensures r.Some? ==> var t := StripPadding(RemoveAsciiWhitespace(s));
      |t| % 4 != 1 && forall i :: 0 <= i < |t| ==> IsAlphabetChar(t[i])
  {
    var t := StripPadding(RemoveAsciiWhitespace(s));
    if |t| % 4 == 1 then None
    else if exists i :: 0 <= i < |t| && !IsAlphabetChar(t[i]) then None
    else Some(FromSextets(seq(|t|, i requires 0 <= i < |t| => SextetOf(t[i]))))
  }

  /** The digits of a sextet sequence are all in the alphabet and read back as the sextets. */
  lemma CharsReadBack(v: seq<int>)
    requires AllSextets(v)
    ensures forall i :: 0 <= i < |v| ==> IsAlphabetChar(Chars(v)[i])
    ensures seq(|v|, i requires 0 <= i < |v| => SextetOf(Chars(v)[i])) == v
  {
    forall i | 0 <= i < |v|
      ensures IsAlphabetChar(Chars(v)[i]) && SextetOf(Chars(v)[i]) == v[i]
    {
      SextetCharInAlphabet(v[i]);
    }
  }

  /** Removing one or two `=` from a complete quantum leaves the digits before them. */
  lemma StripPadded(d: string, n: nat)
    requires forall i :: 0 <= i < |d| ==> IsAlphabetChar(d[i])
    requires (|d| + |Padding(n)|) % 4 == 0
    ensures StripPadding(d + Padding(n)) == d
  {
    var p := Padding(n);
    if PadCount(n) == 0 {
      assert d + p == d;
      StripNoPadding(d);
    } else if PadCount(n) == 1 {
      assert p == "=";
      StripOnePad(d);
    } else {
      assert p == "==";
      StripTwoPads(d);
    }
  }

  lemma StripNoPadding(d: string)
    requires forall i :: 0 <= i < |d| ==> IsAlphabetChar(d[i])
    ensures StripPadding(d) == d
  {
    if |d| > 0 {
      assert IsAlphabetChar(d[|d| - 1]);
    }
  }

  lemma StripOnePad(d: string)
    requires forall i :: 0 <= i < |d| ==> IsAlphabetChar(d[i])
    requires (|d| + 1) % 4 == 0
    ensures StripPadding(d + "=") == d
  {
    var e := d + "=";
    assert e[|e| - 2] == d[|d| - 1] && IsAlphabetChar(d[|d| - 1]);
    assert e[..|e| - 1] == d;
  }

  lemma StripTwoPads(d: string)
    requires (|d| + 2) % 4 == 0
    ensures StripPadding(d + "==") == d
  {
    var e := d + "==";
    assert e[..|e| - 2] == d;
  }

  /** `atob`'s padding step removes exactly the padding `btoa` appended. */
  lemma StripEncoded(s: string)
    requires IsBinary(s)
    ensures StripPadding(Chars(Sextets(s)) + Padding(|s|)) == Chars(Sextets(s))
  {
    StripDigits(Sextets(s), |s|);
  }

  /** The padding step on the digits of `n` bytes' sextets followed by their padding. */
  lemma StripDigits(v: seq<int>, n: nat)
    requires AllSextets(v) && |v| == DigitCount(n)
    ensures StripPadding(Chars(v) + Padding(n)) == Chars(v)
  {
    PaddedLength(n);
    CharsReadBack(v);
    StripPadded(Chars(v), n);
  }

  /** `atob(btoa(s)) == s` for every string `btoa` accepts. */
  lemma AtobBtoa(s: string)
    requires IsBinary(s)
    ensures Atob(Btoa(s).value) == Some(s)
  {
    var v := Sextets(s);
    var digits := Chars(v);
    var e := digits + Padding(|s|);
    CharsReadBack(v);
    assert forall i :: 0 <= i < |e| ==> !IsAsciiWhitespace(e[i]) by {
      forall i | 0 <= i < |e|
        ensures !IsAsciiWhitespace(e[i])
      {
        if i < |digits| {
          assert e[i] == digits[i];
        }
      }
    }
    NoWhitespaceKept(e);
    StripEncoded(s);
    SextetsRoundTrip(s);
    assert Atob(e) == Some(FromSextets(v));
  }

  // ---------------------------------------------------------------- base64url

  function UrlChar(c: char): char {
    if c == '+' then '-' else if c == '/' then '_' else c
  }

  function StandardChar(c: char): char {
    if c == '-' then '+' else if c == '_' then '/' else c
  }

  /** `.replace(/\+/g, '-').replace(/\//g, '_').replace(/=/g, '')`. */
  function ToUrl(s: string): (u: string)
    ensures forall i :: 0 <= i < |u| ==> u[i] != '=' && u[i] != '+' && u[i] != '/'
  {
    if s == [] then []
    else (if s[0] == '=' then [] else [UrlChar(s[0])]) + ToUrl(s[1..])
  }

  /** `.replace(/-/g, '+').replace(/_/g, '/')`. */
  function FromUrl(s: string): (t: string)
    ensures |t| == |s|
    ensures forall i :: 0 <= i < |s| ==> t[i] == StandardChar(s[i])
  {
    seq(|s|, i requires 0 <= i < |s| => StandardChar(s[i]))
  }

  lemma {:induction false} ToUrlAppend(a: string, b: string)
    ensures ToUrl(a + b) == ToUrl(a) + ToUrl(b)
    decreases |a|
  {
    if a != [] {
      assert (a + b)[0] == a[0] && (a + b)[1..] == a[1..] + b;
      ToUrlAppend(a[1..], b);
      var head: string := if a[0] == '=' then [] else [UrlChar(a[0])];
      assert ToUrl(a + b) == head + ToUrl(a[1..] + b);
      assert ToUrl(a) == head + ToUrl(a[1..]);
    } else {
      assert a + b == b;
    }
  }

  /** Away from `=`, the URL alphabet maps character for character. */
  lemma {:induction false} ToUrlNoPadding(s: string)
    requires forall i :: 0 <= i < |s| ==> s[i] != '='
    ensures |ToUrl(s)| == |s|
    ensures forall i :: 0 <= i < |s| ==> ToUrl(s)[i] == UrlChar(s[i])
    decreases |s|
  {
    if s != [] {
      ToUrlNoPadding(s[1..]);
      assert ToUrl(s) == [UrlChar(s[0])] + ToUrl(s[1..]);
    }
  }

  /** `base64UrlEncode`: btoa, then the URL alphabet with the padding dropped. */
  function UrlEncode(s: string): (r: Option<string>)
    ensures r.Some? <==> IsBinary(s)
  {
    match Btoa(s)
    case None => None
    case Some(e) => Some(ToUrl(e))
  }

  /** The padding `base64UrlDecode` appends: `4 - len % 4` characters, so four when len is a multiple of 4. */
  function PadAsWritten(s: string): string {
    s + Repeat('=', 4 - |s| % 4)
  }

  /** Padding up to the next multiple of 4 and no further. */
  function PadToQuantum(s: string): (t: string)
    ensures |t| % 4 == 0 && |t| - |s| < 4
  {
    s + Repeat('=', (4 - |s| % 4) % 4)
  }

  /** `base64UrlDecode` as written. */
  function UrlDecodeAsWritten(s: string): Option<string> {
    Atob(FromUrl(PadAsWritten(s)))
  }

  /** `base64UrlDecode` with the padding it evidently intends. */
  function UrlDecode(s: string): Option<string> {
    Atob(FromUrl(PadToQuantum(s)))
  }

  /**
   * Base64 digits with their padding, turned into the URL alphabet and back
   * with the intended padding, are the digits and padding again.
   */
  lemma UrlLayer(d: string, k: nat)
    requires forall i :: 0 <= i < |d| ==> IsAlphabetChar(d[i])
    requires (|d| + k) % 4 == 0 && k < 4
    ensures FromUrl(PadToQuantum(ToUrl(d + Repeat('=', k)))) == d + Repeat('=', k)
  {
    ToUrlOfPadded(d, k);
    UnpaddedBack(d, k);
  }

  /** The URL alphabet drops the padding. */
  lemma ToUrlOfPadded(d: string, k: nat)
    ensures ToUrl(d + Repeat('=', k)) == ToUrl(d)
  {
    ToUrlAppend(d, Repeat('=', k));
    ToUrlDropsPadding(k);
  }

  /** Digits in the URL alphabet, padded and turned back, are the padded digits. */
  lemma UnpaddedBack(d: string, k: nat)
    requires forall i :: 0 <= i < |d| ==> IsAlphabetChar(d[i])
    requires (|d| + k) % 4 == 0 && k < 4
    ensures FromUrl(PadToQuantum(ToUrl(d))) == d + Repeat('=', k)
  {
    ToUrlNoPadding(d);
    UrlDigitsBack(d, ToUrl(d), k);
  }

  lemma UrlDigitsBack(d: string, u: string, k: nat)
    requires forall i :: 0 <= i < |d| ==> IsAlphabetChar(d[i])
    requires |u| == |d| && forall i :: 0 <= i < |d| ==> u[i] == UrlChar(d[i])
    requires (|d| + k) % 4 == 0 && k < 4
    ensures FromUrl(PadToQuantum(u)) == d + Repeat('=', k)
  {
    PadRestores(u, k);
    var pad := Repeat('=', k);
    forall i | 0 <= i < |d|
      ensures FromUrl(u + pad)[i] == d[i]
    {
      assert (u + pad)[i] == UrlChar(d[i]);
    }
  }

  lemma {:induction false} ToUrlDropsPadding(k: nat)
    ensures ToUrl(Repeat('=', k)) == []
  {
    if k > 0 {
      assert Repeat('=', k)[1..] == Repeat('=', k - 1);
      ToUrlDropsPadding(k - 1);
    }
  }

  /** The intended padding of unpadded digits is the padding `btoa` appended. */
  lemma PadRestores(u: string, k: nat)
    requires (|u| + k) % 4 == 0 && k < 4
    ensures PadToQuantum(u) == u + Repeat('=', k)
  {
    assert (4 - |u| % 4) % 4 == k;
  }

  /** Decoding an encoded string gives it back. */
  lemma UrlRoundTrip(s: string)
    requires IsBinary(s)
    ensures UrlDecode(UrlEncode(s).value) == Some(s)
  {
    CharsReadBack(Sextets(s));
    PaddedLength(|s|);
    UrlLayer(Chars(Sextets(s)), PadCount(|s|));
    AtobBtoa(s);
  }

  /** The characters of section 5 of RFC 4648: letters, digits, `-` and `_`. */
  predicate IsUrlChar(c: char) {
    'A' <= c <= 'Z' || 'a' <= c <= 'z' || '0' <= c <= '9' || c == '-' || c == '_'
  }

  /** An encoded string is in the URL alphabet and has one digit per 6 bits, no padding. */
  lemma UrlEncodeShape(s: string)
    requires IsBinary(s)
    ensures |UrlEncode(s).value| == DigitCount(|s|)
    ensures forall i :: 0 <= i < |UrlEncode(s).value| ==> IsUrlChar(UrlEncode(s).value[i])
  {
    var d := Chars(Sextets(s));
    CharsReadBack(Sextets(s));
    ToUrlOfPadded(d, PadCount(|s|));
    ToUrlNoPadding(d);
  }

  /** The encoding's length is a multiple of 4 exactly when the byte count is a multiple of 3. */
  lemma DigitCountAligned(n: nat)
    ensures DigitCount(n) % 4 == 0 <==> n % 3 == 0
  {
    assert n == (n / 3) * 3 + n % 3;
  }

  /** The as-written decode throws on every string whose length is a multiple of 4. */
  lemma AsWrittenRejectsAligned(s: string)
    requires |s| % 4 == 0
    ensures UrlDecodeAsWritten(s) == None
  {
    var u := FromUrl(s);
    assert FromUrl(PadAsWritten(s)) == u + "====";
    RemoveAppend(u, "====");
    NoWhitespaceKept("====");
    StripKeepsEquals(RemoveAsciiWhitespace(u));
    AtobRejectsTrailingEquals(u + "====");
  }

  /** Four `=` at the end survive padding removal in part. */
  lemma StripKeepsEquals(a: string)
    ensures var t := StripPadding(a + "===="); |t| >= 1 && t[|t| - 1] == '='
  {
  }

  /** `atob` throws when an `=` is left at the end after the padding is stripped. */
  lemma AtobRejectsTrailingEquals(x: string)
    requires var t := StripPadding(RemoveAsciiWhitespace(x)); |t| >= 1 && t[|t| - 1] == '='
    ensures Atob(x) == None
  {
    var t := StripPadding(RemoveAsciiWhitespace(x));
    assert !IsAlphabetChar(t[|t| - 1]);
  }

  lemma {:induction false} RemoveAppend(a: string, b: string)
    ensures RemoveAsciiWhitespace(a + b) == RemoveAsciiWhitespace(a) + RemoveAsciiWhitespace(b)
    decreases |a|
  {
    if a != [] {
      assert (a + b)[0] == a[0] && (a + b)[1..] == a[1..] + b;
      RemoveAppend(a[1..], b);
    } else {
      assert a + b == b;
    }
  }

  /** On the other lengths the as-written padding is the intended one. */
  lemma AsWrittenAgreesOtherwise(s: string)
    requires |s| % 4 != 0
    ensures UrlDecodeAsWritten(s) == UrlDecode(s)
  {
    assert 4 - |s| % 4 == (4 - |s| % 4) % 4;
    assert PadAsWritten(s) == PadToQuantum(s);
  }

  /**
   * "abc" encodes to the unpadded "YWJj"; the as-written decode pads it to
   * "YWJj====" and `atob` throws, while the intended decode returns "abc".
   */
  lemma AsWrittenCounterexample()
    ensures UrlEncode("abc") == Some("YWJj")
    ensures UrlDecodeAsWritten("YWJj") == None
    ensures UrlDecode("YWJj") == Some("abc")
  {
    UrlEncodeAbc();
    UrlRoundTrip("abc");
    AsWrittenRejectsAligned("YWJj");
  }

  lemma UrlEncodeAbc()
    ensures UrlEncode("abc") == Some("YWJj")
  {
    BtoaAbc();
    var e := "YWJj";
    assert forall i :: 0 <= i < |e| ==> e[i] != '=';
    ToUrlNoPadding(e);
    assert ToUrl(e) == e;
  }

  lemma BtoaAbc()
    ensures Btoa("abc") == Some("YWJj")
  {
    var s := "abc";
    assert s[0] as int == 97 && s[1] as int == 98 && s[2] as int == 99;
    assert s[3..] == [];
    assert Sextets(s) == [24, 22, 9, 35];
    assert Chars([24, 22, 9, 35]) == "YWJj";
    assert Padding(3) == [];
    forall i | 0 <= i < |s|
      ensures s[i] as int < 256
    {
      assert i == 0 || i == 1 || i == 2;
    }
    assert IsBinary(s);
    assert Btoa(s) == Some(Chars(Sextets(s)) + Padding(|s|));
    assert Chars(Sextets(s)) + Padding(|s|) == "YWJj";
  }
}
