/**
 * The few Python string operations the WIG reader relies on:
 * `str.isspace`, `str.strip`, `str.split()` (no argument),
 * `str.startswith` and `str.split(sep)[-1]`.
 */
module PyText {

  /** Python's `str.isspace` for a single character: every code point that
      `str.split()` and `str.strip()` treat as whitespace. */
  predicate IsSpace(c: char) {
    || c == ' '
    || '\t' <= c <= '\r'
    || '\U{1C}' <= c <= '\U{1F}'
    || c == '\U{85}' || c == '\U{A0}' || c == '\U{1680}'
    || '\U{2000}' <= c <= '\U{200A}'
    || c == '\U{2028}' || c == '\U{2029}' || c == '\U{202F}' || c == '\U{205F}'
    || c == '\U{3000}'
  }

  /** A token of `str.split()`: non-empty and free of whitespace. */
  predicate IsToken(t: string) {
    t != [] && forall i | 0 <= i < |t| :: !IsSpace(t[i])
  }

  predicate NoSpace(s: string) {
    forall i | 0 <= i < |s| :: !IsSpace(s[i])
  }

  /** `s.lstrip()` */
  function LStrip(s: string): (r: string)
    ensures |r| <= |s| && forall i | 0 <= i < |r| :: r[i] == s[|s| - |r| + i]
    ensures r == [] || !IsSpace(r[0])
    ensures forall i | 0 <= i < |s| - |r| :: IsSpace(s[i])
    decreases |s|
  {
    if s != [] && IsSpace(s[0]) then LStrip(s[1..]) else s
  }

  /** `s.rstrip()` */
  function RStrip(s: string): (r: string)
    ensures |r| <= |s| && forall i | 0 <= i < |r| :: r[i] == s[i]
    ensures r == [] || !IsSpace(r[|r| - 1])
    ensures forall i | |r| <= i < |s| :: IsSpace(s[i])
    decreases |s|
  {
    if s != [] && IsSpace(s[|s| - 1]) then RStrip(s[..|s| - 1]) else s
  }

  /** `s.strip()` */
  function Strip(s: string): string {
    RStrip(LStrip(s))
  }

  /** A string without whitespace is left alone by `strip()`. */
  lemma StripNoSpace(s: string)
    requires NoSpace(s)
    ensures Strip(s) == s
  {
  }

  /** The end of the run of non-space characters that starts before `i`. */
  function WordEnd(s: string, i: nat): (k: nat)
    requires i <= |s|
    ensures i <= k <= |s|
    ensures forall j | i <= j < k :: !IsSpace(s[j])
    ensures k < |s| ==> IsSpace(s[k])
    decreases |s| - i
  {
    if i == |s| || IsSpace(s[i]) then i else WordEnd(s, i + 1)
  }

  /** `s.split()`: the maximal runs of non-whitespace characters, in order. */
  function Split(s: string): seq<string>
    decreases |s|
  {
    if s == [] then []
    else if IsSpace(s[0]) then Split(s[1..])
    else
      var k := WordEnd(s, 1);
      [s[..k]] + Split(s[k..])
  }

  /** Every piece `split()` returns is a genuine token. */
  lemma {:induction false} SplitTokens(s: string)
    ensures forall t | t in Split(s) :: IsToken(t)
    decreases |s|
  {
    if s != [] {
      if IsSpace(s[0]) {
        SplitTokens(s[1..]);
      } else {
        var k := WordEnd(s, 1);
        SplitTokens(s[k..]);
      }
    }
  }

  /** `" ".join(tokens)` */
  function Join(tokens: seq<string>): string {
    if tokens == [] then []
    else if |tokens| == 1 then tokens[0]
    else tokens[0] + " " + Join(tokens[1..])
  }

  /** `split()` undoes `" ".join(...)` on genuine tokens. */
  lemma {:induction false} SplitJoin(tokens: seq<string>)
    requires forall t | t in tokens :: IsToken(t)
    ensures Split(Join(tokens)) == tokens
  {
    if tokens == [] {
    } else {
      var t := tokens[0];
      var s := Join(tokens);
      assert IsToken(t);
      if |tokens| == 1 {
        assert s == t;
        var k := WordEnd(s, 1);
        assert k == |t|;
        assert s[..k] == t;
        assert s[k..] == [];
      } else {
        var rest := Join(tokens[1..]);
        assert s == t + " " + rest;
        assert s[0] == t[0];
        assert forall j | 0 <= j < |t| :: s[j] == t[j];
        assert IsSpace(s[|t|]);
        var k := WordEnd(s, 1);
        assert k == |t|;
        assert s[..k] == t;
        assert s[k..] == " " + rest;
        assert (" " + rest)[1..] == rest;
        SplitJoin(tokens[1..]);
      }
    }
  }

  /** `s.startswith(prefix)` */
  predicate StartsWith(s: string, prefix: string) {
    |prefix| <= |s| && s[..|prefix|] == prefix
  }

  /** `s.split(sep)[-1]`: what follows the last `sep`, or all of `s` when it has
      none. The three clauses determine the result: the longest suffix of `s`
      that does not contain `sep`. */
  function AfterLast(s: string, sep: char): (r: string)
    ensures sep !in r
    ensures |r| <= |s| && forall i | 0 <= i < |r| :: r[i] == s[|s| - |r| + i]
    ensures |r| < |s| ==> s[|s| - |r| - 1] == sep
    decreases |s|
  {
    if s == [] then []
    else if s[|s| - 1] == sep then []
    else AfterLast(s[..|s| - 1], sep) + [s[|s| - 1]]
  }

  /** What follows the last `sep` is exactly the text written after it. */
  lemma {:induction false} AfterLastSep(prefix: string, sep: char, suffix: string)
    requires sep !in suffix
    ensures AfterLast(prefix + [sep] + suffix, sep) == suffix
    decreases |suffix|
  {
    var s := prefix + [sep] + suffix;
    if suffix == [] {
      assert s[|s| - 1] == sep;
    } else {
      var init, last := suffix[..|suffix| - 1], suffix[|suffix| - 1];
      assert suffix == init + [last];
      assert s == (prefix + [sep] + init) + [last];
      assert s[..|s| - 1] == prefix + [sep] + init;
      assert last in suffix;
      AfterLastSep(prefix, sep, init);
    }
  }
}
