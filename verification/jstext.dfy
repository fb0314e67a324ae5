/** The few JavaScript string built-ins the codec relies on, with their
    ECMAScript clamping and padding rules written out. Strings are sequences
    of code units; only characters of the Basic Multilingual Plane are meant. */
module JsText {

  /** `StrWhiteSpaceChar` of ECMAScript: WhiteSpace (TAB, VT, FF, ZWNBSP and
      every space separator) or LineTerminator (LF, CR, LS, PS). */
  predicate IsJsWhiteSpace(c: char) {
    || c == '\t' || c == '\U{0B}' || c == '\U{0C}' || c == '\U{FEFF}'
    || c == ' ' || c == '\U{A0}' || c == '\U{1680}' || ('\U{2000}' <= c <= '\U{200A}')
    || c == '\U{202F}' || c == '\U{205F}' || c == '\U{3000}'
    || c == '\n' || c == '\r' || c == '\U{2028}' || c == '\U{2029}'
  }

  /** `n` copies of the fill character '0'. */
  function Zeros(n: nat): (z: string)
    ensures |z| == n
    ensures forall i :: 0 <= i < n ==> z[i] == '0'
  {
    seq(n, _ => '0')
  }

  /** `s.padStart(maxLength, '0')`: nothing happens unless `maxLength` exceeds
      the length of `s`; otherwise zeros are prepended up to `maxLength`. */
  function PadStart(s: string, maxLength: int): (r: string)
    ensures |r| == if maxLength <= |s| then |s| else maxLength
    ensures r[|r| - |s|..] == s
    ensures forall i :: 0 <= i < |r| - |s| ==> r[i] == '0'
  {
    if maxLength <= |s| then s else Zeros(maxLength - |s|) + s
  }

  /** Clamps a `substring` argument into `[0, len]`. */
  function Clamp(x: int, len: nat): (c: nat)
    ensures c <= len
  {
    if x < 0 then 0 else if x > len then len else x
  }

  /** `s.substring(start, end)`: both ends are clamped to the string and
      swapped when out of order, so the result may be shorter than asked for
      or empty, but never an error. */
  function Substring(s: string, start: int, end: int): (r: string)
    ensures 0 <= start <= end ==> |r| <= end - start
    ensures 0 <= start <= end <= |s| ==> r == s[start..end]
    ensures 0 <= start <= |s| <= end ==> r == s[start..]
    ensures |s| <= start <= end ==> r == []
  {
    var a := Clamp(start, |s|);
    var b := Clamp(end, |s|);
    if a <= b then s[a..b] else s[b..a]
  }

  /** `s` without its trailing white space, as StringToBigInt trims it. */
  function TrimEnd(s: string): (r: string)
    ensures |r| <= |s| && r == s[..|r|]
    ensures |r| == 0 || !IsJsWhiteSpace(r[|r| - 1])
    ensures forall i :: |r| <= i < |s| ==> IsJsWhiteSpace(s[i])
  {
    if |s| > 0 && IsJsWhiteSpace(s[|s| - 1]) then TrimEnd(s[..|s| - 1]) else s
  }

  /** Dropping `j` characters from a run of `a >= j` leading zeros leaves
      `a - j` of them. */
  lemma ZerosDrop(a: nat, j: nat, s: string)
    requires j <= a
    ensures (Zeros(a) + s)[j..] == Zeros(a - j) + s
  {
    var l := (Zeros(a) + s)[j..];
    var r := Zeros(a - j) + s;
    assert |l| == |r|;
    forall i | 0 <= i < |l|
      ensures l[i] == r[i]
    {
      if i < a - j {
        assert l[i] == '0';
      } else {
        assert l[i] == s[i - (a - j)];
      }
    }
  }

  /** `padStart` to a length the string already reaches returns it unchanged. */
  lemma PadStartNoop(s: string, maxLength: int)
    requires maxLength <= |s|
    ensures PadStart(s, maxLength) == s
  {
  }
}
