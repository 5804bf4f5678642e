/** The two JavaScript string operations the process detector uses:
    `String.prototype.split` with a one-character separator and
    `String.prototype.includes`, together with `Array.prototype.join`,
    which is the inverse of the split. */
module JsString {

  /** `s.split(sep)` for a one-character separator: the maximal runs of
      characters between separators, so `"".split(sep)` is `[""]` and a
      trailing separator yields a trailing empty part. */
  function Split(s: string, sep: char): (parts: seq<string>)
    ensures |parts| >= 1
  {
    SplitFrom(s, "", sep)
  }

  /** The scan behind `Split`: `part` holds the characters of the part being
      read; a separator closes it and starts an empty one. */
  function SplitFrom(s: string, part: string, sep: char): (parts: seq<string>)
    ensures |parts| >= 1
    decreases |s|
  {
    if s == [] then [part]
    else if s[0] == sep then [part] + SplitFrom(s[1..], "", sep)
    else SplitFrom(s[1..], part + [s[0]], sep)
  }

  /** `parts.join(sep)`: the parts with one separator between neighbours. */
  function Join(parts: seq<string>, sep: char): string
    decreases |parts|
  {
    if |parts| == 0 then ""
    else if |parts| == 1 then parts[0]
    else parts[0] + [sep] + Join(parts[1..], sep)
  }

  /** No part of a split holds the separator, and there is one part more
      than there are separators. */
  lemma SplitParts(s: string, sep: char)
    ensures forall i :: 0 <= i < |Split(s, sep)| ==> sep !in Split(s, sep)[i]
    ensures |Split(s, sep)| == multiset(s)[sep] + 1
  {
    SplitFromParts(s, "", sep);
  }

  lemma {:induction false} SplitFromParts(s: string, part: string, sep: char)
    requires sep !in part
    ensures forall i :: 0 <= i < |SplitFrom(s, part, sep)| ==> sep !in SplitFrom(s, part, sep)[i]
    ensures |SplitFrom(s, part, sep)| == multiset(s)[sep] + 1
    decreases |s|
  {
    if s != [] {
      assert s == [s[0]] + s[1..];
      if s[0] == sep {
        SplitFromParts(s[1..], "", sep);
      } else {
        SplitFromParts(s[1..], part + [s[0]], sep);
      }
    }
  }

  /** Joining the parts of a split gives back the string that was split. */
  lemma JoinSplit(s: string, sep: char)
    ensures Join(Split(s, sep), sep) == s
  {
    JoinSplitFrom(s, "", sep);
  }

  lemma {:induction false} JoinSplitFrom(s: string, part: string, sep: char)
    ensures Join(SplitFrom(s, part, sep), sep) == part + s
    decreases |s|
  {
    if s != [] {
      assert s == [s[0]] + s[1..];
      if s[0] == sep {
        var rest := SplitFrom(s[1..], "", sep);
        JoinSplitFrom(s[1..], "", sep);
        assert ([part] + rest)[1..] == rest;
      } else {
        JoinSplitFrom(s[1..], part + [s[0]], sep);
      }
    }
  }

  /** A string without the separator is a single part. */
  lemma {:induction false} SplitFromWithoutSeparator(p: string, part: string, sep: char)
    requires sep !in p
    ensures SplitFrom(p, part, sep) == [part + p]
    decreases |p|
  {
    if p != [] {
      assert p == [p[0]] + p[1..];
      assert p[0] != sep;
      SplitFromWithoutSeparator(p[1..], part + [p[0]], sep);
      assert (part + [p[0]]) + p[1..] == part + p;
    } else {
      assert part + p == part;
    }
  }

  /** Splitting `a + [sep] + b` splits `a` and `b` separately: the separator
      between them closes the last part of `a`. */
  lemma SplitAroundSeparator(a: string, b: string, sep: char)
    ensures Split(a + [sep] + b, sep) == Split(a, sep) + Split(b, sep)
  {
    SplitFromAroundSeparator(a, b, "", sep);
  }

  lemma {:induction false} SplitFromAroundSeparator(a: string, b: string, part: string, sep: char)
    ensures SplitFrom(a + [sep] + b, part, sep) == SplitFrom(a, part, sep) + SplitFrom(b, "", sep)
    decreases |a|
  {
    var s := a + [sep] + b;
    if a == [] {
      assert s[0] == sep && s[1..] == b;
      assert SplitFrom(a, part, sep) == [part];
    } else {
      assert s[0] == a[0] && s[1..] == a[1..] + [sep] + b;
      if a[0] == sep {
        SplitFromAroundSeparator(a[1..], b, "", sep);
      } else {
        SplitFromAroundSeparator(a[1..], b, part + [a[0]], sep);
      }
    }
  }

  /** Splitting the join of separator-free parts gives back the parts. */
  lemma {:induction false} SplitJoin(parts: seq<string>, sep: char)
    requires |parts| >= 1
    requires forall i :: 0 <= i < |parts| ==> sep !in parts[i]
    ensures Split(Join(parts, sep), sep) == parts
    decreases |parts|
  {
    SplitFromWithoutSeparator(parts[0], "", sep);
    assert "" + parts[0] == parts[0];
    if |parts| > 1 {
      SplitJoin(parts[1..], sep);
      SplitAroundSeparator(parts[0], Join(parts[1..], sep), sep);
      assert parts == [parts[0]] + parts[1..];
    }
  }

  /** A trailing separator adds exactly one trailing empty part. */
  lemma TrailingSeparator(s: string, sep: char)
    ensures Split(s + [sep], sep) == Split(s, sep) + [""]
  {
    SplitAroundSeparator(s, "", sep);
    assert s + [sep] + "" == s + [sep];
  }

  /** `s` begins with `prefix`. */
  predicate StartsWith(s: string, prefix: string)
  {
    |prefix| <= |s| && s[..|prefix|] == prefix
  }

  /** `s.includes(needle)`: `needle` starts at some position of `s`. The
      empty needle is in every string, and no string holds a longer one. */
  predicate Contains(s: string, needle: string)
    ensures needle == "" ==> Contains(s, needle)
    ensures Contains(s, needle) ==> |needle| <= |s|
    decreases |s|
  {
    StartsWith(s, needle) || (|s| > 0 && Contains(s[1..], needle))
  }

  /** `needle` occurs in `s` starting at index `i`. */
  ghost predicate OccursAt(s: string, needle: string, i: int)
  {
    0 <= i && i + |needle| <= |s| && s[i..i + |needle|] == needle
  }

  /** `Contains` holds exactly when the needle occurs at some index. */
  lemma {:induction false} ContainsIff(s: string, needle: string)
    ensures Contains(s, needle) <==> exists i :: OccursAt(s, needle, i)
    decreases |s|
  {
    if StartsWith(s, needle) {
      assert OccursAt(s, needle, 0);
    }
    if |s| > 0 {
      ContainsIff(s[1..], needle);
      if Contains(s[1..], needle) {
        var i :| OccursAt(s[1..], needle, i);
        assert s[1..][i..i + |needle|] == s[i + 1..i + 1 + |needle|];
        assert OccursAt(s, needle, i + 1);
      }
    }
    if exists i :: OccursAt(s, needle, i) {
      var i :| OccursAt(s, needle, i);
      if i > 0 {
        assert s[1..][i - 1..i - 1 + |needle|] == s[i..i + |needle|];
        assert OccursAt(s[1..], needle, i - 1);
      }
    }
  }

  /** Containment is transitive: a string that contains `m` contains every
      string that `m` contains. */
  lemma {:induction false} ContainsTransitive(s: string, m: string, n: string)
    requires Contains(s, m) && Contains(m, n)
    ensures Contains(s, n)
  {
    ContainsIff(s, m);
    ContainsIff(m, n);
    var i :| OccursAt(s, m, i);
    var j :| OccursAt(m, n, j);
    forall k | 0 <= k < |n|
      ensures s[i + j + k] == n[k]
    {
      assert s[i + j + k] == s[i..i + |m|][j + k] == m[j + k];
      assert m[j + k] == m[j..j + |n|][k];
    }
    assert s[i + j..i + j + |n|] == n;
    assert OccursAt(s, n, i + j);
    ContainsIff(s, n);
  }

  /** A string contains each of its infixes. */
  lemma ContainsInfix(a: string, b: string, c: string)
    ensures Contains(a + b + c, b)
  {
    var s := a + b + c;
    assert s[|a|..|a| + |b|] == b;
    assert OccursAt(s, b, |a|);
    ContainsIff(s, b);
  }

  /** A string that contains a needle contains each of its characters. */
  lemma ContainsCharacterOf(s: string, needle: string, k: int)
    requires 0 <= k < |needle| && Contains(s, needle)
    ensures needle[k] in s
  {
    ContainsIff(s, needle);
    var i :| OccursAt(s, needle, i);
    assert s[i + k] == s[i..i + |needle|][k];
  }

  /** The empty string contains only the empty needle. */
  lemma EmptyContainsOnlyEmpty(needle: string)
    ensures Contains("", needle) <==> needle == ""
  {
  }
}
