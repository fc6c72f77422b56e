/**
 * The JavaScript string built-ins the plugin relies on, on strings as sequences of characters:
 * `trim`, `split` on one character, `join`, `includes`, `startsWith`/`endsWith`, `substring(0, n)`,
 * `replace(/c/g, d)` and the decimal rendering of a natural number in a template literal.
 */
module JsString {
  import SeqFacts

  /** The characters `String.prototype.trim` removes: ECMAScript WhiteSpace and LineTerminator. */
  predicate IsWhitespace(c: char) {
    || c == '\t' || c == '\n' || c == '\U{000B}' || c == '\U{000C}' || c == '\r' || c == ' '
    || c == '\U{00A0}' || c == '\U{1680}' || ('\U{2000}' <= c <= '\U{200A}')
    || c == '\U{2028}' || c == '\U{2029}' || c == '\U{202F}' || c == '\U{205F}'
    || c == '\U{3000}' || c == '\U{FEFF}'
  }

  predicate AllWhitespace(s: string) {
    forall i :: 0 <= i < |s| ==> IsWhitespace(s[i])
  }

  /** Drops the leading whitespace: what is left is a suffix of `s` that starts with a non-blank. */
  function TrimStart(s: string): (r: string)
    ensures |r| <= |s| && r == s[|s| - |r|..]
    ensures forall i :: 0 <= i < |s| - |r| ==> IsWhitespace(s[i])
    ensures r != [] ==> !IsWhitespace(r[0])
  {
    if s != [] && IsWhitespace(s[0]) then TrimStart(s[1..]) else s
  }

  /** Drops the trailing whitespace: what is left is a prefix of `s` that ends with a non-blank. */
  function TrimEnd(s: string): (r: string)
    ensures |r| <= |s| && r == s[..|r|]
    ensures forall i :: |r| <= i < |s| ==> IsWhitespace(s[i])
    ensures r != [] ==> !IsWhitespace(r[|r| - 1])
  {
    if s != [] && IsWhitespace(s[|s| - 1]) then TrimEnd(s[..|s| - 1]) else s
  }

  /** `r` is `s` without its first `a` characters and without a suffix, both made of whitespace. */
  predicate TrimmedAt(s: string, a: int, r: string) {
    0 <= a <= |s| - |r| && r == s[a..a + |r|] && AllWhitespace(s[..a]) && AllWhitespace(s[a + |r|..])
  }

  /** `s.trim()`: what is left of `s` between a whitespace prefix and a whitespace suffix, with a non-blank at each end. */
  function Trim(s: string): (r: string)
    ensures |r| <= |s|
    ensures r != [] ==> !IsWhitespace(r[0]) && !IsWhitespace(r[|r| - 1])
    ensures r == [] <==> AllWhitespace(s)
    ensures exists a :: TrimmedAt(s, a, r)
  {
    TrimBetweenBlanks(s);
    TrimEmpty(s);
    TrimEnd(TrimStart(s))
  }

  lemma TrimBetweenBlanks(s: string)
    ensures exists a :: TrimmedAt(s, a, TrimEnd(TrimStart(s)))
  {
    TrimStartDropsBlanks(s);
    TrimEndDropsBlanks(TrimStart(s));
    BetweenBlanks(s, TrimStart(s), TrimEnd(TrimStart(s)));
    assert TrimmedAt(s, |s| - |TrimStart(s)|, TrimEnd(TrimStart(s)));
  }

  /** A prefix `r` of a suffix `st` of `s`, with blanks around it, is `s` between a blank prefix and a blank suffix. */
  lemma BetweenBlanks(s: string, st: string, r: string)
    requires |st| <= |s| && st == s[|s| - |st|..] && AllWhitespace(s[..|s| - |st|])
    requires |r| <= |st| && r == st[..|r|] && AllWhitespace(st[|r|..])
    ensures TrimmedAt(s, |s| - |st|, r)
  {
    SeqFacts.SliceFacts(s, |s| - |st|, |r|);
  }

  /** Nothing is left exactly when `s` is all whitespace. */
  lemma TrimEmpty(s: string)
    ensures TrimEnd(TrimStart(s)) == [] <==> AllWhitespace(s)
  {
    var st := TrimStart(s);
    var r := TrimEnd(st);
    TrimStartDropsBlanks(s);
    TrimEndDropsBlanks(st);
    BetweenBlanks(s, st, r);
    assert r != [] ==> r[0] == st[0];
    EmptyBetweenBlanks(s, |s| - |st|, r);
  }

  /** Between blanks, nothing is left exactly when everything is blank, if what is left starts with a non-blank. */
  lemma EmptyBetweenBlanks(s: string, a: int, r: string)
    requires TrimmedAt(s, a, r) && (r != [] ==> !IsWhitespace(r[0]))
    ensures r == [] <==> AllWhitespace(s)
  {
    if r == [] {
      forall i | 0 <= i < |s| ensures IsWhitespace(s[i]) {
        if i < a {
          assert s[i] == s[..a][i];
        } else {
          assert s[i] == s[a + |r|..][i - a];
        }
      }
    }
  }

  lemma TrimStartDropsBlanks(s: string)
    ensures AllWhitespace(s[..|s| - |TrimStart(s)|])
  {
    var a := |s| - |TrimStart(s)|;
    forall i | 0 <= i < a ensures IsWhitespace(s[..a][i]) {
      assert s[..a][i] == s[i];
    }
  }

  lemma TrimEndDropsBlanks(st: string)
    ensures AllWhitespace(st[|TrimEnd(st)|..])
  {
    var n := |TrimEnd(st)|;
    forall i | 0 <= i < |st| - n ensures IsWhitespace(st[n..][i]) {
      assert st[n..][i] == st[n + i];
    }
  }

  /** A trimmed string is its own trim. */
  lemma {:induction false} TrimIdempotent(s: string)
    ensures Trim(Trim(s)) == Trim(s)
  {
    var r := Trim(s);
    assert r == [] || !IsWhitespace(r[0]);
    assert TrimStart(r) == r;
    assert r == [] || !IsWhitespace(r[|r| - 1]);
    assert TrimEnd(r) == r;
  }

  predicate StartsWith(s: string, prefix: string) {
    |prefix| <= |s| && s[..|prefix|] == prefix
  }

  predicate EndsWith(s: string, suffix: string) {
    |suffix| <= |s| && s[|s| - |suffix|..] == suffix
  }

  /** `s.includes(sub)`. */
  predicate Contains(s: string, sub: string)
    decreases |s|
  {
    StartsWith(s, sub) || (s != [] && Contains(s[1..], sub))
  }

  /** A string occurs in any concatenation that has it in the middle. */
  lemma {:induction false} ContainsInfix(a: string, b: string, c: string)
    ensures Contains(a + b + c, b)
    decreases |a|
  {
    if a == [] {
      assert (a + b + c)[..|b|] == b;
    } else {
      assert (a + b + c)[1..] == a[1..] + b + c;
      ContainsInfix(a[1..], b, c);
    }
  }

  /** `s.substring(0, n)`: the first `n` characters, or all of `s` when it is shorter. */
  function Prefix(s: string, n: nat): (r: string)
    ensures |r| == if |s| < n then |s| else n
    ensures StartsWith(s, r)
  {
    if |s| <= n then s else s[..n]
  }

  /** `s.replace(/from/g, to)` for a single character `from`. */
  function ReplaceAll(s: string, from: char, to: char): (r: string)
    ensures |r| == |s|
    ensures forall i :: 0 <= i < |s| ==> r[i] == (if s[i] == from then to else s[i])
  {
    seq(|s|, i requires 0 <= i < |s| => if s[i] == from then to else s[i])
  }

  /** `parts.join(sep)`. */
  function Join(parts: seq<string>, sep: string): string
    decreases |parts|
  {
    if |parts| == 0 then ""
    else if |parts| == 1 then parts[0]
    else parts[0] + sep + Join(parts[1..], sep)
  }

  /** `s.split(d)` for a single character `d`: never empty, and no piece contains `d`. */
  function Split(s: string, d: char): (r: seq<string>)
    ensures |r| >= 1
    ensures forall i :: 0 <= i < |r| ==> d !in r[i]
    decreases |s|
  {
    if s == [] then [""]
    else
      var rest := Split(s[1..], d);
      if s[0] == d then [""] + rest
      else [[s[0]] + rest[0]] + rest[1..]
  }

  /** Joining the pieces of a split with the delimiter gives back the string. */
  lemma {:induction false} SplitJoin(s: string, d: char)
    ensures Join(Split(s, d), [d]) == s
    decreases |s|
  {
    if s != [] {
      var rest := Split(s[1..], d);
      SplitJoin(s[1..], d);
      if s[0] == d {
        assert Split(s, d) == [""] + rest;
        assert ([""] + rest)[1..] == rest;
        assert [d] + s[1..] == s;
      } else {
        var head := [s[0]] + rest[0];
        assert Split(s, d) == [head] + rest[1..];
        if |rest| == 1 {
          assert Join(rest, [d]) == rest[0];
        } else {
          assert ([head] + rest[1..])[1..] == rest[1..];
          assert Join(rest, [d]) == rest[0] + [d] + Join(rest[1..], [d]);
        }
        assert [s[0]] + s[1..] == s;
      }
    }
  }

  /** A string without the delimiter splits into itself. */
  lemma {:induction false} SplitWithoutDelimiter(s: string, d: char)
    requires d !in s
    ensures Split(s, d) == [s]
    decreases |s|
  {
    if s != [] {
      assert d !in s[1..];
      SplitWithoutDelimiter(s[1..], d);
      assert [s[0]] + s[1..] == s;
    }
  }

  /** Splitting distributes over a delimiter placed between two strings. */
  lemma {:induction false} SplitAround(a: string, b: string, d: char)
    ensures Split(a + [d] + b, d) == Split(a, d) + Split(b, d)
    decreases |a|
  {
    if a == [] {
      assert a + [d] + b == [d] + b;
    } else {
      var s := a + [d] + b;
      assert s[1..] == a[1..] + [d] + b;
      SplitAround(a[1..], b, d);
    }
  }

  /** A separator that occurs in neither left part splits a concatenation unambiguously. */
  lemma {:induction false} SeparatorSplitsUniquely(a1: string, b1: string, a2: string, b2: string, sep: char)
    requires sep !in a1 && sep !in a2
    requires a1 + [sep] + b1 == a2 + [sep] + b2
    ensures a1 == a2 && b1 == b2
  {
    var s := a1 + [sep] + b1;
    assert s[|a1|] == sep && s[|a2|] == sep;
    assert forall i :: 0 <= i < |a1| ==> s[i] == a1[i] != sep;
    assert forall i :: 0 <= i < |a2| ==> s[i] == a2[i] != sep;
    assert a1 == s[..|a1|] == a2;
    assert b1 == s[|a1| + 1..] == b2;
  }

  /** A string with a non-blank at each end is its own trim. */
  lemma TrimUnchanged(s: string)
    requires s != [] && !IsWhitespace(s[0]) && !IsWhitespace(s[|s| - 1])
    ensures Trim(s) == s
  {
    assert TrimStart(s) == s;
    assert TrimEnd(s) == s;
  }

  /** A split yields one piece exactly when the delimiter does not occur. */
  lemma SplitSingle(s: string, d: char)
    ensures |Split(s, d)| == 1 <==> d !in s
  {
    SplitJoin(s, d);
    if d !in s {
      SplitWithoutDelimiter(s, d);
    }
    assert |Split(s, d)| == 1 ==> Join(Split(s, d), [d]) == Split(s, d)[0];
  }

  /** The first two pieces of a split, with the delimiter between them, start the string. */
  lemma SplitFirstTwo(s: string, d: char)
    requires |Split(s, d)| >= 2
    ensures StartsWith(s, Split(s, d)[0] + [d] + Split(s, d)[1])
  {
    var parts := Split(s, d);
    SplitJoin(s, d);
    var tail := parts[1..];
    assert Join(parts, [d]) == parts[0] + [d] + Join(tail, [d]);
    if |tail| == 1 {
      assert Join(tail, [d]) == parts[1];
      assert s == parts[0] + [d] + parts[1];
    } else {
      assert Join(tail, [d]) == parts[1] + [d] + Join(tail[1..], [d]);
      assert s == (parts[0] + [d] + parts[1]) + ([d] + Join(tail[1..], [d]));
    }
  }

  /** A lowercase hexadecimal digit, `[a-f0-9]` in a regular expression. */
  predicate IsLowerHex(c: char) {
    ('0' <= c <= '9') || ('a' <= c <= 'f')
  }

  /** The character of a decimal digit. */
  function DigitChar(d: nat): (c: char)
    requires d < 10
    ensures '0' <= c <= '9'
  {
    ('0' as int + d) as char
  }

  /** A natural number in decimal, as a template literal renders it. */
  function NatToString(n: nat): (r: string)
    ensures |r| >= 1
    ensures forall i :: 0 <= i < |r| ==> '0' <= r[i] <= '9'
  {
    if n < 10 then [DigitChar(n)] else NatToString(n / 10) + [DigitChar(n % 10)]
  }

  /** The value of a string of decimal digits. */
  function DecimalValue(s: string): nat
    requires forall i :: 0 <= i < |s| ==> '0' <= s[i] <= '9'
  {
    if s == [] then 0 else 10 * DecimalValue(s[..|s| - 1]) + (s[|s| - 1] as int - '0' as int)
  }

  /** Reading the rendered digits gives back the number. */
  lemma {:induction false} NatToStringRoundTrip(n: nat)
    ensures DecimalValue(NatToString(n)) == n
  {
    var r := NatToString(n);
    if n >= 10 {
      NatToStringRoundTrip(n / 10);
      assert r[..|r| - 1] == NatToString(n / 10);
    }
  }
}
