/**
 * The handful of Python `str` operations the alert parser is built from:
 * `p in s`, `s.startswith(p)`, `s.split(sep)[0]`, `s.split(sep)[1]`,
 * `s.replace(old, new)`, `s.strip()` and `s.strip(chars)`.
 * Each is given the meaning CPython gives it, including the IndexError
 * that `split(sep)[1]` raises when `sep` does not occur.
 */
module PyStr {

  datatype Option<T> = None | Some(value: T)

  /** The only exception the parsing core can raise on its own. */
  datatype Result<T> = Ok(value: T) | IndexError

  /** `out.extend(...)` in front of a computation that may raise. */
  function Prepend<T>(a: seq<T>, r: Result<seq<T>>): Result<seq<T>> {
    match r
    case Ok(rest) => Ok(a + rest)
    case IndexError => IndexError
  }

  lemma PrependNil<T>(r: Result<seq<T>>)
    ensures Prepend([], r) == r
  {
    if r.Ok? {
      assert [] + r.value == r.value;
    }
  }

  lemma PrependPrepend<T>(a: seq<T>, b: seq<T>, r: Result<seq<T>>)
    ensures Prepend(a, Prepend(b, r)) == Prepend(a + b, r)
  {
    if r.Ok? {
      assert a + (b + r.value) == (a + b) + r.value;
    }
  }

  /** The characters for which Python's `str.isspace()` holds; `s.strip()` removes these. */
  const Whitespace: set<char> := {
    '\t', '\n', '\U{000B}', '\U{000C}', '\r', '\U{001C}', '\U{001D}', '\U{001E}', '\U{001F}',
    ' ', '\U{0085}', '\U{00A0}', '\U{1680}',
    '\U{2000}', '\U{2001}', '\U{2002}', '\U{2003}', '\U{2004}', '\U{2005}', '\U{2006}',
    '\U{2007}', '\U{2008}', '\U{2009}', '\U{200A}',
    '\U{2028}', '\U{2029}', '\U{202F}', '\U{205F}', '\U{3000}'
  }

  /** `p` occurs in `s` starting at index `k`. */
  predicate OccursAt(s: string, p: string, k: int) {
    0 <= k && k + |p| <= |s| && s[k..k + |p|] == p
  }

  /** `s.startswith(p)` */
  predicate StartsWith(s: string, p: string) {
    |p| <= |s| && s[..|p|] == p
  }

  /** `s.endswith(p)` */
  predicate EndsWith(s: string, p: string) {
    |p| <= |s| && s[|s| - |p|..] == p
  }

  lemma OccursShift(s: string, p: string)
    requires |s| > 0
    ensures forall j :: 1 <= j ==> (OccursAt(s, p, j) <==> OccursAt(s[1..], p, j - 1))
  {
    forall j | 1 <= j ensures OccursAt(s, p, j) <==> OccursAt(s[1..], p, j - 1) {
      if j + |p| <= |s| {
        assert s[1..][j - 1..j - 1 + |p|] == s[j..j + |p|];
      }
    }
  }

  /** `s.find(p)`: the first index at which `p` occurs, if any. */
  function Find(s: string, p: string): (r: Option<nat>)
    ensures r.Some? ==> OccursAt(s, p, r.value)
    ensures r.Some? ==> forall j :: 0 <= j < r.value ==> !OccursAt(s, p, j)
    ensures r.None? ==> forall j :: !OccursAt(s, p, j)
    decreases |s|
  {
    if StartsWith(s, p) then
      assert OccursAt(s, p, 0);
      Some(0)
    else if |s| == 0 then
      None
    else
      OccursShift(s, p);
      match Find(s[1..], p)
      case None => None
      case Some(k) => Some(k + 1)
  }

  /** A character's first occurrence follows a prefix free of it. */
  lemma FindFirstChar(x: string, c: char, rest: string)
    requires c !in x
    ensures Find(x + [c] + rest, [c]) == Some(|x|)
  {
    var s := x + [c] + rest;
    assert s[|x|..|x| + 1] == [c];
    assert OccursAt(s, [c], |x|);
    assert Contains(s, [c]);
    forall j | 0 <= j < |x| ensures !OccursAt(s, [c], j) {
      assert s[j..j + 1] == [x[j]];
    }
  }

  /** Splitting at a character that the prefix `x` lacks: `x` comes first, the second
      field is read from what follows. */
  lemma SplitAtFirst(x: string, c: char, rest: string)
    requires c !in x
    ensures Before(x + [c] + rest, [c]) == x
    ensures SecondField(x + [c] + rest, [c]) == Some(Before(rest, [c]))
  {
    var s := x + [c] + rest;
    FindFirstChar(x, c, rest);
    assert s[..|x|] == x;
    assert s[|x| + 1..] == rest;
  }

  /** `p in s` */
  predicate Contains(s: string, p: string)
    ensures Contains(s, p) <==> exists k :: OccursAt(s, p, k)
  {
    Find(s, p).Some?
  }

  /** A one-character pattern occurs exactly when the character does. */
  lemma ContainsChar(s: string, c: char)
    ensures Contains(s, [c]) <==> c in s
  {
    if c in s {
      var k :| 0 <= k < |s| && s[k] == c;
      assert OccursAt(s, [c], k);
    }
    if Contains(s, [c]) {
      var k :| OccursAt(s, [c], k);
      assert s[k] == s[k..k + 1][0];
    }
  }

  /** Substring containment is transitive. */
  lemma ContainsTrans(a: string, b: string, c: string)
    requires Contains(a, b) && Contains(b, c)
    ensures Contains(a, c)
  {
    var i :| OccursAt(a, b, i);
    var j :| OccursAt(b, c, j);
    assert a[i..i + |b|] == b;
    forall k | 0 <= k < |c| ensures a[i + j + k] == c[k] {
      assert b[j + k] == c[k];
      assert a[i + (j + k)] == b[j + k];
    }
    assert a[i + j..i + j + |c|] == c;
    assert OccursAt(a, c, i + j);
  }

  /** An occurrence inside an occurrence is an occurrence in the whole text. */
  lemma OccursWithin(text: string, field: string, m: int, p: string, j: int)
    requires OccursAt(text, field, m) && OccursAt(field, p, j)
    ensures OccursAt(text, p, m + j)
  {
    forall k | 0 <= k < |p| ensures text[m + j + k] == p[k] {
      assert field[j + k] == p[k];
      assert text[m + (j + k)] == field[j + k];
    }
  }

  /** Every occurrence inside a prefix of `s` is an occurrence in `s`. */
  lemma OccursInPrefix(s: string, p: string, n: nat, j: int)
    requires n <= |s| && OccursAt(s[..n], p, j)
    ensures OccursAt(s, p, j)
  {
    assert s[..n][j..j + |p|] == s[j..j + |p|];
  }

  /** Every occurrence inside a suffix of `s` is an occurrence in `s`, shifted. */
  lemma OccursInSuffix(s: string, p: string, m: nat, j: int)
    requires m <= |s| && OccursAt(s[m..], p, j)
    ensures OccursAt(s, p, m + j)
  {
    assert s[m..][j..j + |p|] == s[m + j..m + j + |p|];
  }

  /** `s.split(sep)[0]`: what precedes the first `sep`, or all of `s`. */
  function Before(s: string, sep: string): (r: string)
    requires |sep| > 0
    ensures StartsWith(s, r)
    ensures !Contains(r, sep)
    ensures Contains(s, sep) ==> OccursAt(s, sep, |r|)
    ensures !Contains(s, sep) ==> r == s
  {
    match Find(s, sep)
    case None => s
    case Some(k) =>
      var r := s[..k];
      assert !Contains(r, sep) by {
        forall j | OccursAt(r, sep, j) ensures false {
          OccursInPrefix(s, sep, k, j);
        }
      }
      r
  }

  /** Index `e` ends a field: the string ends there or `sep` follows. */
  predicate EndsField(s: string, sep: string, e: int) {
    e == |s| || OccursAt(s, sep, e)
  }

  /** The field read off the suffix from `m` on, up to the next `sep` or the end,
      sits at `m` in `s` and is followed there by that `sep` or by the end. */
  lemma FieldInPlace(s: string, sep: string, m: nat)
    requires |sep| > 0 && m <= |s|
    ensures OccursAt(s, Before(s[m..], sep), m)
    ensures EndsField(s, sep, m + |Before(s[m..], sep)|)
  {
    var rest := s[m..];
    var field := Before(rest, sep);
    assert OccursAt(rest, field, 0);
    OccursInSuffix(s, field, m, 0);
    if Contains(rest, sep) {
      OccursInSuffix(s, sep, m, |field|);
    } else {
      assert field == rest;
    }
  }

  /** The field that starts at `m`: up to the next `sep`, or to the end. */
  function FieldFrom(s: string, sep: string, m: nat): (r: string)
    requires |sep| > 0 && m <= |s|
    ensures OccursAt(s, r, m)
    ensures !Contains(r, sep)
    ensures EndsField(s, sep, m + |r|)
  {
    FieldInPlace(s, sep, m);
    Before(s[m..], sep)
  }

  /** `s.split(sep)[1]`: the text between the first and the second `sep`;
      IndexError (None) when `sep` does not occur at all. */
  function SecondField(s: string, sep: string): (r: Option<string>)
    requires |sep| > 0
    ensures r.Some? <==> Contains(s, sep)
    ensures r.Some? ==> !Contains(r.value, sep)
    ensures r.Some? ==> OccursAt(s, sep, |Before(s, sep)|)
    ensures r.Some? ==> OccursAt(s, r.value, |Before(s, sep)| + |sep|)
    ensures r.Some? ==> EndsField(s, sep, |Before(s, sep)| + |sep| + |r.value|)
  {
    if !Contains(s, sep) then None
    else Some(FieldFrom(s, sep, |Before(s, sep)| + |sep|))
  }

  /** `s.replace(pat, rep)`: scanning left to right, an occurrence of `pat` at the
      current position is replaced and skipped, so occurrences never overlap. */
  function Replace(s: string, pat: string, rep: string): (r: string)
    requires |pat| > 0
    ensures !Contains(s, pat) ==> r == s
    decreases |s|
  {
    if |s| == 0 then s
    else if StartsWith(s, pat) then
      rep + Replace(s[|pat|..], pat, rep)
    else
      var rest := Replace(s[1..], pat, rep);
      assert !Contains(s, pat) ==> rest == s[1..] by {
        OccursShift(s, pat);
      }
      assert [s[0]] + s[1..] == s;
      [s[0]] + rest
  }

  /** Replacing introduces no character that is neither in `s` nor in `rep`. */
  lemma {:induction false} ReplaceChars(s: string, pat: string, rep: string)
    requires |pat| > 0
    ensures forall c :: c in Replace(s, pat, rep) ==> c in s || c in rep
    decreases |s|
  {
    if |s| == 0 {
    } else if StartsWith(s, pat) {
      ReplaceChars(s[|pat|..], pat, rep);
      assert forall c :: c in s[|pat|..] ==> c in s;
    } else {
      ReplaceChars(s[1..], pat, rep);
      assert forall c :: c in s[1..] ==> c in s;
    }
  }

  /** Removing a character that occurs only at the end drops that last character. */
  lemma {:induction false} DropTrailingChar(x: string, c: char)
    requires c !in x
    ensures Replace(x + [c], [c], []) == x
    decreases |x|
  {
    var s := x + [c];
    if x == [] {
      assert StartsWith(s, [c]) && s[1..] == [];
    } else {
      assert s[..1] == [x[0]] && !StartsWith(s, [c]);
      assert s[1..] == x[1..] + [c];
      DropTrailingChar(x[1..], c);
      assert [x[0]] + x[1..] == x;
    }
  }

  /** One `.replace(pat, rep)` step of a chain. */
  datatype Substitution = Sub(pat: string, rep: string)

  /** A chain `s.replace(p1, r1).replace(p2, r2)...`, applied left to right. */
  function ReplaceAll(s: string, subs: seq<Substitution>): (r: string)
    requires forall k :: 0 <= k < |subs| ==> |subs[k].pat| > 0
    decreases |subs|
  {
    if subs == [] then s else ReplaceAll(Replace(s, subs[0].pat, subs[0].rep), subs[1..])
  }

  /** Deleting a one-character pattern leaves none of that character behind. */
  lemma {:induction false} ReplaceDeletesChar(s: string, c: char)
    ensures c !in Replace(s, [c], "")
    decreases |s|
  {
    if |s| == 0 {
    } else if StartsWith(s, [c]) {
      ReplaceDeletesChar(s[1..], c);
      assert "" + Replace(s[1..], [c], "") == Replace(s[1..], [c], "");
    } else {
      assert s[..1] == [s[0]];
      ReplaceDeletesChar(s[1..], c);
    }
  }

  /** `r` is `s` with a run of `cs` characters removed before index `i` and after `r`. */
  ghost predicate StrippedAt(s: string, r: string, cs: set<char>, i: int) {
    && 0 <= i <= |s| - |r| && s[i..i + |r|] == r
    && (forall k :: 0 <= k < i ==> s[k] in cs)
    && (forall k :: i + |r| <= k < |s| ==> s[k] in cs)
  }

  /** `s.strip(chars)`: Python removes a character SET from both ends, not a literal token.
      What is left neither starts nor ends with a character of `cs`. */
  function StripChars(s: string, cs: set<char>): (r: string)
    ensures |r| > 0 ==> r[0] !in cs && r[|r| - 1] !in cs
    decreases |s|
  {
    if |s| > 0 && s[0] in cs then StripChars(s[1..], cs)
    else if |s| > 0 && s[|s| - 1] in cs then StripChars(s[..|s| - 1], cs)
    else s
  }

  /** Putting a `cs` character in front keeps `r` framed by `cs` runs. */
  lemma StrippedAtCons(s: string, r: string, cs: set<char>, i: int)
    requires |s| > 0 && s[0] in cs && StrippedAt(s[1..], r, cs, i)
    ensures StrippedAt(s, r, cs, i + 1)
  {
    assert s[i + 1..i + 1 + |r|] == s[1..][i..i + |r|];
    forall k | i + 1 + |r| <= k < |s| ensures s[k] in cs {
      assert s[k] == s[1..][k - 1];
    }
    forall k | 0 < k < i + 1 ensures s[k] in cs {
      assert s[k] == s[1..][k - 1];
    }
  }

  /** Putting a `cs` character at the end keeps `r` framed by `cs` runs. */
  lemma StrippedAtSnoc(s: string, r: string, cs: set<char>, i: int)
    requires |s| > 0 && s[|s| - 1] in cs && StrippedAt(s[..|s| - 1], r, cs, i)
    ensures StrippedAt(s, r, cs, i)
  {
    var t := s[..|s| - 1];
    assert s[i..i + |r|] == t[i..i + |r|];
    forall k | 0 <= k < i ensures s[k] in cs {
      assert s[k] == t[k];
    }
    forall k | i + |r| <= k < |s| - 1 ensures s[k] in cs {
      assert s[k] == t[k];
    }
  }

  /** `StripChars` removes only a run of `cs` characters at each end: the result is an
      infix of `s` framed by such runs. */
  lemma {:induction false} StripCharsInfix(s: string, cs: set<char>)
    ensures exists i :: StrippedAt(s, StripChars(s, cs), cs, i)
    ensures Contains(s, StripChars(s, cs))
    decreases |s|
  {
    var r := StripChars(s, cs);
    var i: int;
    if |s| > 0 && s[0] in cs {
      StripCharsInfix(s[1..], cs);
      var j :| StrippedAt(s[1..], r, cs, j);
      StrippedAtCons(s, r, cs, j);
      i := j + 1;
    } else if |s| > 0 && s[|s| - 1] in cs {
      StripCharsInfix(s[..|s| - 1], cs);
      i :| StrippedAt(s[..|s| - 1], r, cs, i);
      StrippedAtSnoc(s, r, cs, i);
    } else {
      i := 0;
      assert s[0..|s|] == s;
    }
    assert StrippedAt(s, r, cs, i);
    assert OccursAt(s, r, i);
  }

  /** A chain `s.strip(c1).strip(c2)...`, applied left to right. */
  function StripAll(s: string, steps: seq<set<char>>): (r: string)
    ensures |steps| > 0 && |r| > 0 ==> r[0] !in steps[|steps| - 1] && r[|r| - 1] !in steps[|steps| - 1]
    decreases |steps|
  {
    if steps == [] then s else StripAll(StripChars(s, steps[0]), steps[1..])
  }

  /** A strip chain only removes: its result is an infix of `s`. */
  lemma {:induction false} StripAllInfix(s: string, steps: seq<set<char>>)
    ensures Contains(s, StripAll(s, steps))
    decreases |steps|
  {
    if steps == [] {
      assert OccursAt(s, s, 0);
    } else {
      var t := StripChars(s, steps[0]);
      StripCharsInfix(s, steps[0]);
      StripAllInfix(t, steps[1..]);
      ContainsTrans(s, t, StripAll(t, steps[1..]));
    }
  }

  /** `s.strip()` */
  function Strip(s: string): (r: string)
    ensures |r| > 0 ==> r[0] !in Whitespace && r[|r| - 1] !in Whitespace
  {
    StripChars(s, Whitespace)
  }

  /** "Any of the words occurs in `s`": the loop `for b in words: if b in s: return True`. */
  predicate ContainsAny(s: string, words: seq<string>)
    ensures ContainsAny(s, words) <==> exists k :: 0 <= k < |words| && Contains(s, words[k])
  {
    |words| > 0 && (Contains(s, words[0]) || ContainsAny(s, words[1..]))
  }

  /** Growing the text keeps every word it already contained. */
  lemma ContainsAnyInfix(s: string, t: string, words: seq<string>)
    requires Contains(t, s) && ContainsAny(s, words)
    ensures ContainsAny(t, words)
  {
    var k :| 0 <= k < |words| && Contains(s, words[k]);
    ContainsTrans(t, s, words[k]);
  }

  /** The empty text contains no non-empty word. */
  lemma EmptyContainsNoWord(words: seq<string>)
    requires forall k :: 0 <= k < |words| ==> |words[k]| > 0
    ensures !ContainsAny("", words)
  {
  }
}
