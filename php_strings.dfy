/**
 * The PHP string built-ins the core relies on, over `seq<char>`:
 * `implode`, `explode` (with and without a limit of 2), `str_replace`,
 * `ltrim`, `strtolower` and `empty()` on strings.
 */
module PhpStrings {
  import opened Wrappers

  predicate IsAlpha(c: char) { 'a' <= c <= 'z' || 'A' <= c <= 'Z' }

  predicate IsDigit(c: char) { '0' <= c <= '9' }

  predicate IsAlnum(c: char) { IsAlpha(c) || IsDigit(c) }

  /** The class `[ \t]`. */
  predicate IsBlank(c: char) { c == ' ' || c == '\t' }

  /** PHP's `empty()` on a string value: both "" and "0" are empty. */
  predicate IsEmptyString(s: string) { s == "" || s == "0" }

  /** `implode(sep, parts)`. */
  function Join(sep: string, parts: seq<string>): string
  {
    if |parts| == 0 then ""
    else if |parts| == 1 then parts[0]
    else parts[0] + sep + Join(sep, parts[1..])
  }

  lemma {:induction false} JoinAppend(sep: string, parts: seq<string>, last: string)
    requires parts != []
    ensures Join(sep, parts + [last]) == Join(sep, parts) + sep + last
  {
    if |parts| == 1 {
      assert parts + [last] == [parts[0], last];
    } else {
      assert (parts + [last])[1..] == parts[1..] + [last];
      JoinAppend(sep, parts[1..], last);
    }
  }

  /** Index of the first occurrence of `c` in `s`. */
  function IndexOf(s: string, c: char): (k: nat)
    requires c in s
    ensures k < |s| && s[k] == c && c !in s[..k]
  {
    if s[0] == c then 0
    else
      var k := IndexOf(s[1..], c);
      assert s[1..][..k] == s[1..k + 1];
      k + 1
  }

  lemma IndexOfIsFirst(s: string, c: char, j: nat)
    requires j < |s| && s[j] == c && c !in s[..j]
    ensures IndexOf(s, c) == j
  {
    var k := IndexOf(s, c);
    assert s[k] in s[..j] || k >= j;
    assert s[j] in s[..k] || j >= k;
  }

  /** `explode(sep, s)` for a one-character separator. */
  function Split(sep: char, s: string): (parts: seq<string>)
    ensures |parts| >= 1
    ensures forall p :: p in parts ==> sep !in p
    decreases |s|
  {
    if sep !in s then [s]
    else
      var k := IndexOf(s, sep);
      [s[..k]] + Split(sep, s[k + 1..])
  }

  /** A character absent from the string is absent from every part `explode` returns. */
  lemma {:induction false} SplitAbsent(sep: char, s: string, x: char)
    requires x !in s
    ensures forall p :: p in Split(sep, s) ==> x !in p
    decreases |s|
  {
    if sep in s {
      var k := IndexOf(s, sep);
      assert x !in s[k + 1..] && x !in s[..k] by {
        assert forall c :: c in s[k + 1..] ==> c in s;
        assert forall c :: c in s[..k] ==> c in s;
      }
      SplitAbsent(sep, s[k + 1..], x);
    }
  }

  /** Joining what `explode` returned gives back the string. */
  lemma {:induction false} JoinSplit(sep: char, s: string)
    ensures Join([sep], Split(sep, s)) == s
    decreases |s|
  {
    if sep in s {
      var k := IndexOf(s, sep);
      var rest := Split(sep, s[k + 1..]);
      var parts := [s[..k]] + rest;
      assert Split(sep, s) == parts;
      assert |parts| > 1 && parts[0] == s[..k] && parts[1..] == rest;
      assert Join([sep], parts) == s[..k] + [sep] + Join([sep], rest);
      JoinSplit(sep, s[k + 1..]);
      assert s == s[..k] + [sep] + s[k + 1..];
    }
  }

  /** Exploding an implode of separator-free, non-empty lists gives back the list. */
  lemma {:induction false} SplitJoin(sep: char, parts: seq<string>)
    requires |parts| >= 1
    requires forall p :: p in parts ==> sep !in p
    ensures Split(sep, Join([sep], parts)) == parts
  {
    if |parts| > 1 {
      var rest := Join([sep], parts[1..]);
      assert Join([sep], parts) == parts[0] + [sep] + rest;
      assert parts[0] in parts;
      SplitAt(sep, parts[0], rest);
      assert forall p :: p in parts[1..] ==> p in parts;
      SplitJoin(sep, parts[1..]);
      assert parts == [parts[0]] + parts[1..];
    }
  }

  /**
   * `explode(sep, s, 2)`: the part before the first separator and, when the
   * separator occurs, the rest after it (PHP leaves the second part null
   * when it does not).
   */
  function SplitOnce(sep: char, s: string): (r: (string, Option<string>))
    ensures sep !in r.0
    ensures r.1.None? <==> sep !in s
    ensures r.1.None? ==> r.0 == s
    ensures r.1.Some? ==> s == r.0 + [sep] + r.1.value
  {
    if sep !in s then (s, None)
    else
      var k := IndexOf(s, sep);
      assert s == s[..k] + [sep] + s[k + 1..];
      (s[..k], Some(s[k + 1..]))
  }

  function LowerChar(c: char): char
  {
    if 'A' <= c <= 'Z' then (c as int + 32) as char else c
  }

  /** `strtolower` on ASCII letters. */
  function ToLower(s: string): (r: string)
    ensures |r| == |s|
    ensures forall i :: 0 <= i < |s| ==> if 'A' <= s[i] <= 'Z' then r[i] as int == s[i] as int + 32 else r[i] == s[i]
    ensures forall c :: c in r ==> !('A' <= c <= 'Z')
  {
    seq(|s|, i requires 0 <= i < |s| => LowerChar(s[i]))
  }

  /** `ltrim(s, c)` for a single character. */
  function TrimLeading(s: string, c: char): (r: string)
    ensures |r| <= |s| && s[|s| - |r|..] == r
    ensures r == [] || r[0] != c
    ensures forall i :: 0 <= i < |s| - |r| ==> s[i] == c
  {
    if s != [] && s[0] == c then TrimLeading(s[1..], c) else s
  }

  /** `pat` occurs in `s` starting at index `i`. */
  predicate OccursAt(pat: string, s: string, i: nat)
  {
    i + |pat| <= |s| && s[i..i + |pat|] == pat
  }

  /** `str_replace(pat, "", s)`: removes the non-overlapping occurrences of `pat`, left to right. */
  function RemoveAll(s: string, pat: string): (r: string)
    requires pat != ""
    ensures |r| <= |s|
    decreases |s|
  {
    if |s| < |pat| then s
    else if s[..|pat|] == pat then RemoveAll(s[|pat|..], pat)
    else [s[0]] + RemoveAll(s[1..], pat)
  }

  /** A string in which `pat` never occurs is left alone. */
  lemma {:induction false} RemoveAllAbsent(s: string, pat: string)
    requires pat != ""
    requires forall i :: 0 <= i <= |s| ==> !OccursAt(pat, s, i)
    ensures RemoveAll(s, pat) == s
    decreases |s|
  {
    if |s| >= |pat| {
      assert !OccursAt(pat, s, 0);
      forall i | 0 <= i <= |s[1..]| ensures !OccursAt(pat, s[1..], i) {
        assert !OccursAt(pat, s, i + 1);
        if i + |pat| <= |s[1..]| {
          assert s[1..][i..i + |pat|] == s[i + 1..i + 1 + |pat|];
        }
      }
      RemoveAllAbsent(s[1..], pat);
    }
  }

  /** A leading occurrence is dropped and the rest is processed as on its own. */
  lemma RemoveAllLeading(pat: string, s: string)
    requires pat != ""
    ensures RemoveAll(pat + s, pat) == RemoveAll(s, pat)
  {
    assert (pat + s)[..|pat|] == pat;
    assert (pat + s)[|pat|..] == s;
  }

  /** `str_replace("\n", "\n | ", s)`. */
  function Indent(s: string): (r: string)
    ensures |r| >= |s|
  {
    if s == [] then []
    else (if s[0] == '\n' then "\n | " else [s[0]]) + Indent(s[1..])
  }

  /** The reverse rewriting: every "\n | " back to "\n". */
  function Unindent(s: string): string
  {
    if |s| >= 4 && s[..4] == "\n | " then "\n" + Unindent(s[4..])
    else if s == [] then []
    else [s[0]] + Unindent(s[1..])
  }

  /** Indenting loses nothing: the original text can be recovered. */
  lemma {:induction false} UnindentIndent(s: string)
    ensures Unindent(Indent(s)) == s
  {
    if s != [] {
      UnindentIndent(s[1..]);
      var r := Indent(s);
      if s[0] == '\n' {
        assert r == "\n | " + Indent(s[1..]);
        assert r[..4] == "\n | " && r[4..] == Indent(s[1..]);
      } else {
        assert r == [s[0]] + Indent(s[1..]);
        assert r[0] != '\n';
        assert r[1..] == Indent(s[1..]);
      }
      assert s == [s[0]] + s[1..];
    }
  }

  /** Every newline of the indented text continues the comment with " | ". */
  lemma {:induction false} IndentContinuesComment(s: string, i: nat)
    requires i < |Indent(s)| && Indent(s)[i] == '\n'
    ensures i + 4 <= |Indent(s)| && Indent(s)[i..i + 4] == "\n | "
  {
    var head := if s[0] == '\n' then "\n | " else [s[0]];
    assert Indent(s) == head + Indent(s[1..]);
    if i >= |head| {
      IndentContinuesComment(s[1..], i - |head|);
      assert Indent(s)[i..i + 4] == Indent(s[1..])[i - |head|..i - |head| + 4];
    } else {
      assert Indent(s)[i] == head[i];
    }
  }

  /** Indenting works piece by piece. */
  lemma {:induction false} IndentAppend(a: string, b: string)
    ensures Indent(a + b) == Indent(a) + Indent(b)
  {
    if a != [] {
      var ab := a + b;
      assert ab != [] && ab[0] == a[0] && ab[1..] == a[1..] + b;
      var head := if a[0] == '\n' then "\n | " else [a[0]];
      assert Indent(ab) == head + Indent(a[1..] + b);
      IndentAppend(a[1..], b);
      assert Indent(a) == head + Indent(a[1..]);
      assert head + (Indent(a[1..]) + Indent(b)) == (head + Indent(a[1..])) + Indent(b);
    } else {
      assert a + b == b;
    }
  }

  /** Text on a single line is left as it is. */
  lemma {:induction false} IndentPlain(s: string)
    requires '\n' !in s
    ensures Indent(s) == s
  {
    if s != [] {
      assert s[0] != '\n' && '\n' !in s[1..];
      IndentPlain(s[1..]);
    }
  }

  /** Cutting at the first separator: the text before it is the first part. */
  lemma SplitAt(sep: char, a: string, b: string)
    requires sep !in a
    ensures Split(sep, a + [sep] + b) == [a] + Split(sep, b)
  {
    var s := a + [sep] + b;
    assert s[..|a|] == a && s[|a|] == sep;
    IndexOfIsFirst(s, sep, |a|);
    assert s[|a| + 1..] == b;
  }

  lemma SplitOnceAt(sep: char, a: string, b: string)
    requires sep !in a
    ensures SplitOnce(sep, a + [sep] + b) == (a, Some(b))
  {
    var s := a + [sep] + b;
    assert s[..|a|] == a;
    IndexOfIsFirst(s, sep, |a|);
    assert s[|a| + 1..] == b;
  }

  /** `n` copies of `c`. */
  function Repeat(c: char, n: nat): (r: string)
    ensures |r| == n && forall i :: 0 <= i < n ==> r[i] == c
  {
    if n == 0 then "" else [c] + Repeat(c, n - 1)
  }
}
