/** The JavaScript string operations the pages rely on: `trim`, `toLowerCase`,
    `includes`, `startsWith`, `replace` with a string pattern, and decimal formatting
    of a non-negative integer (template literals such as `user-${Date.now()}`). */
module Text {
  import opened Wrappers

  /** The WhiteSpace and LineTerminator code points that `String.prototype.trim` strips. */
  predicate IsJsSpace(c: char)
  {
    || c == '\t' || c == '\n' || c == '\U{000B}' || c == '\U{000C}' || c == '\r' || c == ' '
    || c == '\U{00A0}' || c == '\U{1680}' || ('\U{2000}' <= c <= '\U{200A}')
    || c == '\U{2028}' || c == '\U{2029}' || c == '\U{202F}' || c == '\U{205F}'
    || c == '\U{3000}' || c == '\U{FEFF}'
  }

  /** Every character of `s` is white space (so `s.trim()` is empty). */
  predicate AllSpace(s: string)
  {
    forall k :: 0 <= k < |s| ==> IsJsSpace(s[k])
  }

  /** Length of the white-space prefix of `s`. */
  function LeadingSpace(s: string): (n: nat)
    ensures n <= |s|
    ensures forall k :: 0 <= k < n ==> IsJsSpace(s[k])
    ensures n < |s| ==> !IsJsSpace(s[n])
    decreases |s|
  {
    if s == [] || !IsJsSpace(s[0]) then 0 else 1 + LeadingSpace(s[1..])
  }

  /** Start of the white-space suffix of `s`. */
  function TrailingSpace(s: string): (n: nat)
    ensures n <= |s|
    ensures forall k :: n <= k < |s| ==> IsJsSpace(s[k])
    ensures n > 0 ==> !IsJsSpace(s[n - 1])
    decreases |s|
  {
    if s == [] || !IsJsSpace(s[|s| - 1]) then |s| else TrailingSpace(s[..|s| - 1])
  }

  /** `s.trim()`: `s` without its leading and trailing white space. */
  function Trim(s: string): (r: string)
    ensures r == [] <==> AllSpace(s)
    ensures r != [] ==> !IsJsSpace(r[0]) && !IsJsSpace(r[|r| - 1])
    ensures exists i, j :: 0 <= i <= j <= |s| && r == s[i..j] && AllSpace(s[..i]) && AllSpace(s[j..])
  {
    var i := LeadingSpace(s);
    var t := s[i..];
    var j := TrailingSpace(t);
    assert t[..j] == s[i..i + j];
    assert s[i + j..] == t[j..];
    assert i < |s| ==> t[0] == s[i];
    t[..j]
  }

  /** ASCII upper-case letters become lower case; everything else is kept. */
  function LowerChar(c: char): char
  {
    if 'A' <= c <= 'Z' then (c as int + 32) as char else c
  }

  /** `s.toLowerCase()`, on the ASCII letters. */
  function ToLower(s: string): (r: string)
    ensures |r| == |s|
    ensures forall k :: 0 <= k < |s| ==> r[k] == LowerChar(s[k])
  {
    seq(|s|, k requires 0 <= k < |s| => LowerChar(s[k]))
  }

  /** `pat` occurs in `s` starting at index `i`. */
  predicate OccursAt(s: string, pat: string, i: int)
  {
    0 <= i && i + |pat| <= |s| && s[i..i + |pat|] == pat
  }

  /** `i` is the first index at which `pat` occurs in `s`. */
  ghost predicate FirstOccurrence(s: string, pat: string, i: int)
  {
    OccursAt(s, pat, i) && forall k :: 0 <= k < i ==> !OccursAt(s, pat, k)
  }

  /** `s.indexOf(pat, from)`, with `None` for -1. */
  function IndexOf(s: string, pat: string, from: nat): (r: Option<nat>)
    requires from <= |s|
    ensures r.Some? ==> from <= r.value && OccursAt(s, pat, r.value)
    ensures r.Some? ==> forall k :: from <= k < r.value ==> !OccursAt(s, pat, k)
    ensures r.None? ==> forall k :: from <= k ==> !OccursAt(s, pat, k)
    decreases |s| - from
  {
    if from + |pat| > |s| then None
    else if s[from..from + |pat|] == pat then Some(from)
    else IndexOf(s, pat, from + 1)
  }

  /** `pat` occurs somewhere in `s`. */
  ghost predicate Occurs(s: string, pat: string)
  {
    exists k :: OccursAt(s, pat, k)
  }

  /** `s.includes(pat)`. */
  function Contains(s: string, pat: string): (b: bool)
    ensures b <==> Occurs(s, pat)
  {
    IndexOf(s, pat, 0).Some?
  }

  /** Every string contains the empty string. */
  lemma ContainsEmpty(s: string)
    ensures Contains(s, "")
  {
    assert OccursAt(s, "", 0);
  }

  /** `s.startsWith(p)`. */
  predicate StartsWith(s: string, p: string)
  {
    |p| <= |s| && s[..|p|] == p
  }

  /** A `$` token (`$$`, `$&`, `` $` `` or `$'`) starts at index `k` of the template `t`. */
  predicate TokenAt(t: string, k: int)
  {
    0 <= k < |t| - 1 && t[k] == '$' && t[k + 1] in "$&`'"
  }

  /** A replacement template holds no `$` token: every `$` is the last character or is
      followed by a character other than `$`, `&`, `` ` `` and `'`. */
  ghost predicate PlainTemplate(t: string)
  {
    forall k :: !TokenAt(t, k)
  }

  /** Expansion of the replacement template `t` that `String.prototype.replace` performs
      when its pattern is a string: `$$` is a dollar sign, `$&` the matched text, `` $` ``
      the text before the match, `$'` the text after it; any other `$` stands for itself
      (there are no capture groups). */
  function Expand(t: string, matched: string, before: string, after: string): (r: string)
    ensures PlainTemplate(t) ==> r == t
    decreases |t|
  {
    if t == [] then []
    else if TokenAt(t, 0) && t[1] == '$' then "$" + Expand(t[2..], matched, before, after)
    else if TokenAt(t, 0) && t[1] == '&' then matched + Expand(t[2..], matched, before, after)
    else if TokenAt(t, 0) && t[1] == '`' then before + Expand(t[2..], matched, before, after)
    else if TokenAt(t, 0) && t[1] == '\'' then after + Expand(t[2..], matched, before, after)
    else
      assert PlainTemplate(t) ==> PlainTemplate(t[1..]) by {
        forall k | TokenAt(t[1..], k) ensures TokenAt(t, k + 1) {
        }
      }
      assert [t[0]] + t[1..] == t;
      [t[0]] + Expand(t[1..], matched, before, after)
  }

  /** The text a two-character `$` token expands to. */
  function TokenText(d: char, matched: string, before: string, after: string): string
  {
    if d == '$' then "$" else if d == '&' then matched else if d == '`' then before else after
  }

  /** One `$` token at the head of the template expands to its text. */
  lemma ExpandToken(d: char, t: string, matched: string, before: string, after: string)
    requires d in "$&`'"
    ensures Expand(['$', d] + t, matched, before, after)
            == TokenText(d, matched, before, after) + Expand(t, matched, before, after)
  {
    var u := ['$', d] + t;
    assert u[0] == '$' && u[1] == d && u[2..] == t;
  }

  /** The template is read token by token from the left: each of the four `$` tokens expands
      to its text, and any other character, a `$` that starts no token included, to itself. */
  lemma ExpandTokens(c: char, t: string, matched: string, before: string, after: string)
    ensures Expand("$$" + t, matched, before, after) == "$" + Expand(t, matched, before, after)
    ensures Expand("$&" + t, matched, before, after) == matched + Expand(t, matched, before, after)
    ensures Expand("$`" + t, matched, before, after) == before + Expand(t, matched, before, after)
    ensures Expand("$'" + t, matched, before, after) == after + Expand(t, matched, before, after)
    ensures c != '$' ==> Expand([c] + t, matched, before, after) == [c] + Expand(t, matched, before, after)
    ensures c !in "$&`'" ==>
              Expand(['$', c] + t, matched, before, after) == "$" + Expand([c] + t, matched, before, after)
    ensures Expand("$", matched, before, after) == "$"
  {
    ExpandToken('$', t, matched, before, after);
    ExpandToken('&', t, matched, before, after);
    ExpandToken('`', t, matched, before, after);
    ExpandToken('\'', t, matched, before, after);
    var u := [c] + t;
    assert u[0] == c && u[1..] == t;
    var v := ['$', c] + t;
    assert v[0] == '$' && v[1] == c && v[1..] == u;
    assert "$"[1..] == [];
  }

  /** `s.replace(pat, repl)` for a string `pat`: only the first occurrence is replaced, by the
      expansion of `repl` for that match (see `ReplaceFirstAt`). */
  function ReplaceFirst(s: string, pat: string, repl: string): (r: string)
    ensures (forall k :: !OccursAt(s, pat, k)) ==> r == s
  {
    match IndexOf(s, pat, 0)
    case None => s
    case Some(i) => s[..i] + Expand(repl, pat, s[..i], s[i + |pat|..]) + s[i + |pat|..]
  }

  /** Where the pattern first occurs at `i` and ends at `j`, `replace` keeps the text before
      and after the match and puts the expanded template in between. */
  lemma ReplaceFirstAt(s: string, pat: string, repl: string, i: nat, j: nat)
    requires FirstOccurrence(s, pat, i) && j == i + |pat|
    ensures ReplaceFirst(s, pat, repl) == s[..i] + Expand(repl, pat, s[..i], s[j..]) + s[j..]
  {
    IndexOfFirst(s, pat, i);
    ReplaceFound(s, pat, repl, i, j);
  }

  /** `replace` where `indexOf` has found the pattern at `i`. */
  lemma ReplaceFound(s: string, pat: string, repl: string, i: nat, j: nat)
    requires IndexOf(s, pat, 0) == Some(i) && j == i + |pat|
    ensures ReplaceFirst(s, pat, repl) == s[..i] + Expand(repl, pat, s[..i], s[j..]) + s[j..]
  {
  }

  /** A plain template is put in place of the first occurrence as it is. */
  lemma ReplaceFirstPlain(s: string, pat: string, repl: string, i: nat)
    requires FirstOccurrence(s, pat, i) && PlainTemplate(repl)
    ensures ReplaceFirst(s, pat, repl) == s[..i] + repl + s[i + |pat|..]
  {
    ReplaceFirstAt(s, pat, repl, i, i + |pat|);
  }

  /** `indexOf` from the start finds the first occurrence. */
  lemma IndexOfFirst(s: string, pat: string, i: nat)
    requires FirstOccurrence(s, pat, i)
    ensures IndexOf(s, pat, 0) == Some(i)
  {
    var r := IndexOf(s, pat, 0);
    assert OccursAt(s, pat, i);
    assert r.Some? && OccursAt(s, pat, r.value);
  }

  /** The character of a decimal digit. */
  function DigitChar(d: nat): (c: char)
    requires d < 10
    ensures '0' <= c <= '9'
  {
    ('0' as int + d) as char
  }

  /** The digit a decimal digit character stands for. */
  function DigitValue(c: char): nat
  {
    if '0' <= c <= '9' then c as int - '0' as int else 0
  }

  /** The number a string of decimal digits denotes. */
  function DecimalValue(s: string): nat
    decreases |s|
  {
    if s == [] then 0 else 10 * DecimalValue(s[..|s| - 1]) + DigitValue(s[|s| - 1])
  }

  /** `String(n)` for a non-negative integer: its decimal digits without leading zeros. */
  function Decimal(n: nat): (s: string)
    ensures |s| >= 1
    ensures forall k :: 0 <= k < |s| ==> '0' <= s[k] <= '9'
    ensures |s| > 1 ==> s[0] != '0'
    decreases n
  {
    if n < 10 then [DigitChar(n)] else Decimal(n / 10) + [DigitChar(n % 10)]
  }

  /** Reading back the digits `Decimal` writes gives the number again, so distinct
      numbers format to distinct strings. */
  lemma {:induction false} DecimalRoundTrip(n: nat)
    ensures DecimalValue(Decimal(n)) == n
    decreases n
  {
    var s := Decimal(n);
    if n >= 10 {
      DecimalRoundTrip(n / 10);
      assert s == Decimal(n / 10) + [DigitChar(n % 10)];
      assert s[..|s| - 1] == Decimal(n / 10);
      assert DigitValue(s[|s| - 1]) == n % 10;
    }
  }
}
