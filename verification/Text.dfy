/** The string operations the base station uses: trimming, upper-casing, prefix and
    suffix tests, std::getline, stream tokens and the clamping substr. */
module Text {

  /** std::isspace in the C locale: blank, or one of \t \n \v \f \r. */
  predicate IsSpace(c: char) {
    c == ' ' || '\t' <= c <= '\r'
  }

  predicate AllSpace(s: string) {
    forall i :: 0 <= i < |s| ==> IsSpace(s[i])
  }

  predicate NoSpace(s: string) {
    forall i :: 0 <= i < |s| ==> !IsSpace(s[i])
  }

  predicate Without(s: string, c: char) {
    forall i :: 0 <= i < |s| ==> s[i] != c
  }

  lemma Regroup<T>(a: seq<T>, b: seq<T>, c: seq<T>)
    ensures a + (b + c) == (a + b) + c
  {
  }

  // ------------------------------------------------------------------ trimming

  function TrimLeft(s: string): string {
    if s == "" || !IsSpace(s[0]) then s else TrimLeft(s[1..])
  }

  function TrimRight(s: string): string {
    if s == "" || !IsSpace(s[|s| - 1]) then s else TrimRight(s[..|s| - 1])
  }

  function Trim(s: string): string {
    TrimRight(TrimLeft(s))
  }

  /** A text with no blank at either end. */
  predicate Trimmed(s: string) {
    s != "" ==> !IsSpace(s[0]) && !IsSpace(s[|s| - 1])
  }

  lemma {:induction false} TrimLeftDrops(l: string, s: string)
    requires AllSpace(l) && (s != "" ==> !IsSpace(s[0]))
    ensures TrimLeft(l + s) == s
  {
    if l == "" {
      assert l + s == s;
    } else {
      assert (l + s)[1..] == l[1..] + s;
      TrimLeftDrops(l[1..], s);
    }
  }

  lemma {:induction false} TrimRightDrops(s: string, r: string)
    requires AllSpace(r) && (s != "" ==> !IsSpace(s[|s| - 1]))
    ensures TrimRight(s + r) == s
  {
    if r == "" {
      assert s + r == s;
    } else {
      assert (s + r)[..|s + r| - 1] == s + r[..|r| - 1];
      TrimRightDrops(s, r[..|r| - 1]);
    }
  }

  /** Trimming removes exactly the blanks around a text. */
  lemma TrimPadded(l: string, s: string, r: string)
    requires AllSpace(l) && AllSpace(r) && Trimmed(s)
    ensures Trim(l + s + r) == s
  {
    if s == "" {
      assert l + s + r == (l + r) + "";
      TrimLeftDrops(l + r, "");
      assert Trim(l + s + r) == TrimRight("");
    } else {
      assert l + s + r == l + (s + r);
      TrimLeftDrops(l, s + r);
      TrimRightDrops(s, r);
    }
  }

  lemma TrimTrimmed(s: string)
    requires Trimmed(s)
    ensures Trim(s) == s
  {
    TrimPadded("", s, "");
    assert "" + s + "" == s;
  }

  lemma {:induction false} TrimLeftSuffix(s: string)
    ensures exists k :: 0 <= k <= |s| && TrimLeft(s) == s[k..]
    ensures TrimLeft(s) != "" ==> !IsSpace(TrimLeft(s)[0])
  {
    if s == "" || !IsSpace(s[0]) {
      assert TrimLeft(s) == s[0..];
    } else {
      TrimLeftSuffix(s[1..]);
      var k :| 0 <= k <= |s[1..]| && TrimLeft(s[1..]) == s[1..][k..];
      assert s[1..][k..] == s[k + 1..];
    }
  }

  lemma {:induction false} TrimRightPrefix(s: string)
    ensures TrimRight(s) <= s
    ensures TrimRight(s) != "" ==> !IsSpace(TrimRight(s)[|TrimRight(s)| - 1])
  {
    if s != "" && IsSpace(s[|s| - 1]) {
      TrimRightPrefix(s[..|s| - 1]);
    }
  }

  /** Whatever is trimmed has no blank at either end. */
  lemma TrimResult(s: string)
    ensures Trimmed(Trim(s))
  {
    TrimLeftSuffix(s);
    TrimRightPrefix(TrimLeft(s));
  }

  // --------------------------------------------------------------- upper case

  function ToUpper(c: char): char {
    if 'a' <= c <= 'z' then ((c as int) - 32) as char else c
  }

  function Upper(s: string): string {
    seq(|s|, i requires 0 <= i < |s| => ToUpper(s[i]))
  }

  lemma UpperIdempotent(s: string)
    ensures Upper(Upper(s)) == Upper(s)
  {
  }

  lemma UpperConcat(a: string, b: string)
    ensures Upper(a + b) == Upper(a) + Upper(b)
  {
  }

  lemma UpperTrimmed(s: string)
    requires Trimmed(s)
    ensures Trimmed(Upper(s))
  {
  }

  // ------------------------------------------------- prefix, suffix, substring

  predicate StartsWith(s: string, p: string) {
    |p| <= |s| && s[..|p|] == p
  }

  predicate EndsWith(s: string, e: string) {
    |e| <= |s| && s[|s| - |e|..] == e
  }

  lemma StartsWithConcat(p: string, r: string)
    ensures StartsWith(p + r, p) && (p + r)[|p|..] == r
  {
  }

  lemma EndsWithConcat(l: string, e: string)
    ensures EndsWith(l + e, e) && (l + e)[..|l|] == l
  {
  }

  /** Subtraction of two size_t values: wraps below zero. */
  function SizeSub(a: nat, b: nat): nat
    requires b < 0x1_0000_0000
  {
    if b <= a then a - b else a + 0x1_0000_0000 - b
  }

  /** std::string::substr: the count is clamped to what is left of the text. */
  function Substr(s: string, pos: nat, n: nat): string
    requires pos <= |s|
  {
    if n <= |s| - pos then s[pos..pos + n] else s[pos..]
  }

  /** What is left of s without its first start and its last drop characters, as the base
      station computes it: the length is an unsigned difference and substr clamps it. */
  function Between(s: string, start: nat, drop: nat): string
    requires start <= |s| && drop < 0x1_0000_0000
  {
    var rest := Substr(s, start, |s| - start);
    Substr(rest, 0, SizeSub(|rest|, drop))
  }

  lemma Sandwich(p: string, name: string, e: string)
    requires |e| < 0x1_0000_0000
    ensures StartsWith(p + name + e, p) && EndsWith(p + name + e, e)
    ensures Between(p + name + e, |p|, |e|) == name
  {
    var s := p + name + e;
    assert s[..|p|] == p && s[|s| - |e|..] == e;
    assert s[|p|..] == name + e;
    assert (name + e)[..|name|] == name;
  }

  lemma SandwichOnly(s: string, p: string, e: string)
    requires StartsWith(s, p) && EndsWith(s, e) && |p| + |e| <= |s| && |e| < 0x1_0000_0000
    ensures s == p + Between(s, |p|, |e|) + e
  {
    assert s == s[..|p|] + s[|p|..|s| - |e|] + s[|s| - |e|..];
    assert s[|p|..][..|s| - |p| - |e|] == s[|p|..|s| - |e|];
  }

  // ----------------------------------------------------------- lines and fields

  /** Index of the first c in s, or |s| when there is none. */
  function IndexOf(s: string, c: char): (i: nat)
    ensures i <= |s|
    ensures i < |s| ==> s[i] == c
    ensures forall j :: 0 <= j < i ==> s[j] != c
  {
    if s == "" || s[0] == c then 0
    else
      var r := IndexOf(s[1..], c);
      assert forall j :: 0 < j < r + 1 ==> s[j] == s[1..][j - 1];
      r + 1
  }

  lemma IndexOfConcat(a: string, c: char, b: string)
    requires Without(a, c)
    ensures IndexOf(a + [c] + b, c) == |a|
  {
    var s := a + [c] + b;
    var i := IndexOf(s, c);
    assert s[|a|] == c;
    assert forall k :: 0 <= k < |a| ==> s[k] == a[k];
  }

  /** What isspace and toupper do to each character. */
  lemma CharsExactly(c: char)
    ensures IsSpace(c) <==> c in {' ', '\t', '\n', '\U{0B}', '\U{0C}', '\r'}
    ensures 'a' <= c <= 'z' ==> "ABCDEFGHIJKLMNOPQRSTUVWXYZ"[c as int - 'a' as int] == ToUpper(c)
    ensures !('a' <= c <= 'z') ==> ToUpper(c) == c
  {
  }

  /** What one std::getline takes from a non-empty stream. */
  function Head(text: string, sep: char): string {
    text[..IndexOf(text, sep)]
  }

  /** What one std::getline leaves in the stream. */
  function Tail(text: string, sep: char): (r: string)
    ensures text != "" ==> |r| < |text|
  {
    var i := IndexOf(text, sep);
    if i < |text| then text[i + 1..] else ""
  }

  lemma GetLine(a: string, sep: char, rest: string)
    requires Without(a, sep)
    ensures Head(a + [sep] + rest, sep) == a && Tail(a + [sep] + rest, sep) == rest
  {
    IndexOfConcat(a, sep, rest);
  }

  lemma GetLastLine(a: string, sep: char)
    requires Without(a, sep)
    ensures Head(a, sep) == a && Tail(a, sep) == ""
  {
    assert IndexOf(a, sep) == |a|;
  }

  // --------------------------------------------------------------------- tokens

  /** Length of the run of non-blank characters s starts with. */
  function WordLength(s: string): (n: nat)
    ensures n <= |s|
    ensures n < |s| ==> IsSpace(s[n])
    ensures forall j :: 0 <= j < n ==> !IsSpace(s[j])
  {
    if s == "" || IsSpace(s[0]) then 0
    else
      var r := WordLength(s[1..]);
      assert forall j :: 0 < j < r + 1 ==> s[j] == s[1..][j - 1];
      r + 1
  }

  /** The words istream_iterator<std::string> yields. */
  function Tokens(s: string): seq<string>
    decreases |s|
  {
    if s == "" then []
    else if IsSpace(s[0]) then Tokens(s[1..])
    else [s[..WordLength(s)]] + Tokens(s[WordLength(s)..])
  }

  lemma {:induction false} WordFound(s: string, i: nat)
    requires i < |s| && !IsSpace(s[i])
    ensures |Tokens(s)| >= 1
  {
    if IsSpace(s[0]) {
      assert s[1..][i - 1] == s[i];
      WordFound(s[1..], i - 1);
    }
  }

  /** A word, a blank, and a text ending in a non-blank make at least two tokens. */
  lemma WordThenRest(w: string, rest: string)
    requires w != "" && NoSpace(w)
    requires rest != "" && IsSpace(rest[0])
    ensures Tokens(w + rest) == [w] + Tokens(rest)
  {
    var s := w + rest;
    var n := WordLength(s);
    assert s[|w|] == rest[0];
    assert forall k :: 0 <= k < |w| ==> s[k] == w[k];
    assert n == |w|;
    assert !IsSpace(s[0]) by { assert s[0] == w[0]; }
    assert s[..n] == w && s[n..] == rest;
  }

  lemma SingleToken(w: string)
    requires w != "" && NoSpace(w)
    ensures Tokens(w) == [w]
  {
    var n := WordLength(w);
    assert n == |w|;
    assert w[..n] == w && w[n..] == "";
    assert Tokens(w[n..]) == [];
  }
}
