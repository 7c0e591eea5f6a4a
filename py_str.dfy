/** The operations on Python (2) `str` values that the git wrappers apply to a
    command's captured output: `pat in s`, `s.replace(c, "")`, `s.split(c)`,
    slicing `s[start:stop]` and `s.strip()`. `s.count(c)` and `sep.join(parts)`
    are not called by the wrappers; they are here to state properties of the
    others (how many pieces a split gives, what a removal keeps, what undoes a
    split). A `str` is modelled as `seq<char>`. */
module PyStr {

  // ---------------------------------------------------------------------------
  // Substring test: `pat in s`
  // ---------------------------------------------------------------------------

  /** Python's `pat in s` for strings: `pat` occurs as a contiguous piece of `s`
      (so the empty string is in every string). */
  function Contains(s: string, pat: string): (b: bool)
    ensures |pat| == 0 ==> b
    ensures b ==> |pat| <= |s|
    decreases |s|
  {
    pat <= s || (|s| > 0 && Contains(s[1..], pat))
  }

  /** `pat` occurs in `s` starting at index `i`. */
  ghost predicate OccursAt(s: string, pat: string, i: int)
  {
    0 <= i && i + |pat| <= |s| && s[i..i + |pat|] == pat
  }

  lemma {:induction false} OccursAtContains(s: string, pat: string, i: int)
    requires OccursAt(s, pat, i)
    ensures Contains(s, pat)
    decreases i
  {
    if i == 0 {
      assert pat <= s;
    } else {
      assert s[1..][i - 1..i - 1 + |pat|] == s[i..i + |pat|];
      OccursAtContains(s[1..], pat, i - 1);
    }
  }

  lemma {:induction false} ContainsOccurs(s: string, pat: string)
    requires Contains(s, pat)
    ensures exists i :: OccursAt(s, pat, i)
    decreases |s|
  {
    if pat <= s {
      assert OccursAt(s, pat, 0);
    } else {
      ContainsOccurs(s[1..], pat);
      var i :| OccursAt(s[1..], pat, i);
      assert s[i + 1..i + 1 + |pat|] == s[1..][i..i + |pat|];
      assert OccursAt(s, pat, i + 1);
    }
  }

  /** `Contains` agrees with the index-based definition of a substring. */
  lemma ContainsIffOccurs(s: string, pat: string)
    ensures Contains(s, pat) <==> exists i :: OccursAt(s, pat, i)
  {
    if Contains(s, pat) {
      ContainsOccurs(s, pat);
    }
    forall i | OccursAt(s, pat, i)
      ensures Contains(s, pat)
    {
      OccursAtContains(s, pat, i);
    }
  }

  /** A string occurs in any string built around it. */
  lemma ContainsInfix(x: string, pat: string, y: string)
    ensures Contains(x + pat + y, pat)
  {
    var s := x + pat + y;
    assert s[|x|..|x| + |pat|] == pat;
    OccursAtContains(s, pat, |x|);
  }

  /** Being a substring is transitive. */
  lemma ContainsTransitive(a: string, b: string, c: string)
    requires Contains(b, a) && Contains(c, b)
    ensures Contains(c, a)
  {
    ContainsOccurs(b, a);
    var i :| OccursAt(b, a, i);
    ContainsOccurs(c, b);
    var j :| OccursAt(c, b, j);
    forall k | 0 <= k < |a|
      ensures c[j + i + k] == a[k]
    {
      assert c[j..j + |b|][i + k] == c[j + i + k];
      assert b[i..i + |a|][k] == b[i + k];
    }
    assert c[j + i..j + i + |a|] == a;
    OccursAtContains(c, a, j + i);
  }

  /** Transitivity in the form a function body can use: once `a` is known to
      be in `b`, whatever contains `b` contains `a`. */
  lemma ContainsThrough(a: string, b: string, c: string)
    requires Contains(b, a)
    ensures Contains(c, b) ==> Contains(c, a)
  {
    if Contains(c, b) {
      ContainsTransitive(a, b, c);
    }
  }

  // ---------------------------------------------------------------------------
  // `s.count(c)` and `s.replace(c, "")` for a one-character `c`
  // ---------------------------------------------------------------------------

  /** Python's `s.count(c)` for a one-character `c` (used to state properties). */
  function Count(s: string, c: char): (n: nat)
    ensures n <= |s|
    ensures n == 0 <==> c !in s
  {
    if |s| == 0 then 0 else (if s[0] == c then 1 else 0) + Count(s[1..], c)
  }

  lemma {:induction false} CountAppend(a: string, b: string, c: char)
    ensures Count(a + b, c) == Count(a, c) + Count(b, c)
    decreases |a|
  {
    if |a| > 0 {
      assert (a + b)[1..] == a[1..] + b;
      CountAppend(a[1..], b, c);
    } else {
      assert a + b == b;
    }
  }

  /** Python's `s.replace(c, "")` for a one-character `c`: every `c` is removed,
      and the result is no longer than `s`. */
  function Delete(s: string, c: char): (r: string)
    ensures c !in r
    ensures |r| <= |s|
  {
    if |s| == 0 then ""
    else if s[0] == c then Delete(s[1..], c)
    else [s[0]] + Delete(s[1..], c)
  }

  /** Removing `c` keeps every other character, as many times as it occurred. */
  lemma {:induction false} DeleteCount(s: string, c: char, d: char)
    ensures Count(Delete(s, c), d) == if d == c then 0 else Count(s, d)
    decreases |s|
  {
    if |s| > 0 {
      DeleteCount(s[1..], c, d);
      if s[0] != c {
        CountAppend([s[0]], Delete(s[1..], c), d);
      }
    }
  }

  /** Removing `c` shortens `s` by exactly the number of `c` it holds. */
  lemma {:induction false} DeleteLength(s: string, c: char)
    ensures |Delete(s, c)| == |s| - Count(s, c)
    decreases |s|
  {
    if |s| > 0 {
      DeleteLength(s[1..], c);
    }
  }

  /** A string without `c` is returned unchanged. */
  lemma {:induction false} DeleteNoOp(s: string, c: char)
    requires c !in s
    ensures Delete(s, c) == s
    decreases |s|
  {
    if |s| > 0 {
      assert s[0] != c && c !in s[1..];
      DeleteNoOp(s[1..], c);
      assert s == [s[0]] + s[1..];
    }
  }

  /** Removing `c` twice is the same as removing it once. */
  lemma DeleteIdempotent(s: string, c: char)
    ensures Delete(Delete(s, c), c) == Delete(s, c)
  {
    DeleteNoOp(Delete(s, c), c);
  }

  /** `replace` works piecewise on a concatenation. */
  lemma {:induction false} DeleteAppend(a: string, b: string, c: char)
    ensures Delete(a + b, c) == Delete(a, c) + Delete(b, c)
    decreases |a|
  {
    if |a| > 0 {
      assert (a + b)[0] == a[0] && (a + b)[1..] == a[1..] + b;
      DeleteAppend(a[1..], b, c);
    } else {
      assert a + b == b;
    }
  }

  // ---------------------------------------------------------------------------
  // `s.split(c)` and `sep.join(parts)`
  // ---------------------------------------------------------------------------

  /** Python's `s.split(sep)` for a one-character separator: the pieces between
      the separators, one more piece than there are separators, none of them
      holding the separator (so `"".split(sep) == [""]`). */
  function Split(s: string, sep: char): (parts: seq<string>)
    ensures |parts| == Count(s, sep) + 1
    ensures forall i :: 0 <= i < |parts| ==> sep !in parts[i]
    decreases |s|
  {
    if |s| == 0 then [""]
    else
      var rest := Split(s[1..], sep);
      if s[0] == sep then [""] + rest
      else [[s[0]] + rest[0]] + rest[1..]
  }

  /** Python's `sep.join(parts)` (used to state properties of `Split` and
      `Delete`). */
  function Join(parts: seq<string>, sep: string): string
  {
    if |parts| == 0 then ""
    else if |parts| == 1 then parts[0]
    else parts[0] + sep + Join(parts[1..], sep)
  }

  lemma JoinCons(p: string, ps: seq<string>, sep: string)
    requires |ps| > 0
    ensures Join([p] + ps, sep) == p + sep + Join(ps, sep)
  {
    assert ([p] + ps)[1..] == ps;
  }

  /** Joining the pieces of a split with the separator gives the string back. */
  lemma {:induction false} JoinSplit(s: string, sep: char)
    ensures Join(Split(s, sep), [sep]) == s
    decreases |s|
  {
    if |s| > 0 {
      var rest := Split(s[1..], sep);
      JoinSplit(s[1..], sep);
      if s[0] == sep {
        JoinCons("", rest, [sep]);
        assert s == [sep] + s[1..];
      } else {
        var head := [s[0]] + rest[0];
        if |rest| == 1 {
          assert Split(s, sep) == [head];
        } else {
          JoinCons(head, rest[1..], [sep]);
          JoinCons(rest[0], rest[1..], [sep]);
          assert rest == [rest[0]] + rest[1..];
        }
      }
    }
  }

  /** Splitting after a separator-free prefix `p` only extends the first piece. */
  lemma {:induction false} SplitPrefix(p: string, t: string, sep: char)
    requires sep !in p
    ensures Split(p + t, sep) == [p + Split(t, sep)[0]] + Split(t, sep)[1..]
    decreases |p|
  {
    if |p| == 0 {
      var rest := Split(t, sep);
      assert p + t == t && p + rest[0] == rest[0];
      assert rest == [rest[0]] + rest[1..];
    } else {
      assert (p + t)[0] == p[0] && (p + t)[1..] == p[1..] + t;
      SplitPrefix(p[1..], t, sep);
      assert [p[0]] + (p[1..] + Split(t, sep)[0]) == p + Split(t, sep)[0];
    }
  }

  /** Splitting a join of separator-free pieces gives the pieces back. The join
      of no pieces is `""`, which splits into `[""]`, so at least one piece is
      needed. */
  lemma {:induction false} SplitJoin(parts: seq<string>, sep: char)
    requires |parts| > 0
    requires forall i :: 0 <= i < |parts| ==> sep !in parts[i]
    ensures Split(Join(parts, [sep]), sep) == parts
    decreases |parts|
  {
    if |parts| == 1 {
      SplitPrefix(parts[0], "", sep);
      assert parts[0] + "" == parts[0];
    } else {
      var j := Join(parts[1..], [sep]);
      SplitJoin(parts[1..], sep);
      assert parts[0] + [sep] + j == parts[0] + ([sep] + j);
      SplitPrefix(parts[0], [sep] + j, sep);
      assert ([sep] + j)[1..] == j;
      assert Split([sep] + j, sep) == [""] + parts[1..];
      assert parts[0] + "" == parts[0];
      assert parts == [parts[0]] + parts[1..];
    }
  }

  /** `s.replace(c, "")` equals `"".join(s.split(c))`. */
  lemma {:induction false} DeleteIsJoinOfSplit(s: string, c: char)
    ensures Delete(s, c) == Join(Split(s, c), "")
    decreases |s|
  {
    if |s| > 0 {
      var rest := Split(s[1..], c);
      DeleteIsJoinOfSplit(s[1..], c);
      if s[0] == c {
        JoinCons("", rest, "");
      } else {
        var head := [s[0]] + rest[0];
        if |rest| == 1 {
          assert Split(s, c) == [head];
        } else {
          JoinCons(head, rest[1..], "");
          JoinCons(rest[0], rest[1..], "");
          assert rest == [rest[0]] + rest[1..];
        }
      }
    }
  }

  // ---------------------------------------------------------------------------
  // Slicing `s[start:stop]`
  // ---------------------------------------------------------------------------

  /** How Python turns a slice bound into an index of a sequence of length `n`:
      a negative bound counts from the end, and the result is clamped to
      `0..n`. */
  function SliceIndex(bound: int, n: nat): (k: nat)
    ensures k <= n
    ensures 0 <= bound <= n ==> k == bound
    ensures bound < 0 && n + bound >= 0 ==> k == n + bound
  {
    if bound < 0 then (if n + bound < 0 then 0 else n + bound)
    else if bound > n then n
    else bound
  }

  /** Python's `s[start:stop]` (no step): empty when the normalised bounds
      cross; bounds already inside `s` act as Dafny's `s[start..stop]`; a
      non-empty result is the piece of `s` at the normalised start. */
  function Slice(s: string, start: int, stop: int): (r: string)
    ensures |r| <= |s|
    ensures 0 <= start <= stop <= |s| ==> r == s[start..stop]
    ensures |r| > 0 ==> OccursAt(s, r, SliceIndex(start, |s|))
  {
    var i, j := SliceIndex(start, |s|), SliceIndex(stop, |s|);
    if i < j then s[i..j] else ""
  }

  /** `s[1:-1]` drops exactly the first and the last character; a string of at
      most two characters gives `""`. */
  lemma SliceDropEnds(s: string)
    ensures |s| <= 2 ==> Slice(s, 1, -1) == ""
    ensures |s| >= 2 ==> s == [s[0]] + Slice(s, 1, -1) + [s[|s| - 1]]
  {
    if |s| >= 2 {
      assert s == [s[0]] + s[1..|s| - 1] + [s[|s| - 1]];
    }
  }

  /** `s[1:-1]` undoes wrapping `m` in one character on each side. */
  lemma SliceUnwrap(first: char, m: string, last: char)
    ensures Slice([first] + m + [last], 1, -1) == m
  {
    var s := [first] + m + [last];
    assert s[1..|s| - 1] == m;
  }

  // ---------------------------------------------------------------------------
  // `s.strip()`
  // ---------------------------------------------------------------------------

  /** The characters Python 2's `str.strip()` removes (C `isspace` in the C
      locale): space, tab, line feed, carriage return, vertical tab, form feed. */
  predicate IsSpace(c: char)
  {
    c == ' ' || c == '\t' || c == '\n' || c == '\r' || c == '\U{000B}' || c == '\U{000C}'
  }

  predicate AllSpace(s: string)
  {
    forall i :: 0 <= i < |s| ==> IsSpace(s[i])
  }

  /** Neither end of `s` is whitespace. */
  predicate IsStripped(s: string)
  {
    |s| == 0 || (!IsSpace(s[0]) && !IsSpace(s[|s| - 1]))
  }

  /** Python's `s.lstrip()`: the suffix of `s` left after its leading
      whitespace. */
  function LStrip(s: string): (r: string)
    ensures |r| <= |s| && r == s[|s| - |r|..]
    ensures AllSpace(s[..|s| - |r|])
    ensures |r| > 0 ==> !IsSpace(r[0])
    decreases |s|
  {
    if |s| > 0 && IsSpace(s[0]) then
      var r := LStrip(s[1..]);
      assert s[..|s| - |r|] == [s[0]] + s[1..][..|s| - 1 - |r|];
      r
    else s
  }

  /** Python's `s.rstrip()`: the prefix of `s` left before its trailing
      whitespace. */
  function RStrip(s: string): (r: string)
    ensures |r| <= |s| && r == s[..|r|]
    ensures AllSpace(s[|r|..])
    ensures |r| > 0 ==> !IsSpace(r[|r| - 1])
    decreases |s|
  {
    if |s| > 0 && IsSpace(s[|s| - 1]) then
      var r := RStrip(s[..|s| - 1]);
      assert s[|r|..] == s[..|s| - 1][|r|..] + [s[|s| - 1]];
      r
    else s
  }

  /** Python's `s.strip()`: the piece of `s` between its leading and its
      trailing whitespace. */
  function Strip(s: string): (r: string)
    ensures IsStripped(r)
    ensures |r| <= |s|
  {
    RStrip(LStrip(s))
  }

  lemma {:induction false} LStripSkips(w: string, t: string)
    requires AllSpace(w)
    requires |t| > 0 ==> !IsSpace(t[0])
    ensures LStrip(w + t) == t
    decreases |w|
  {
    if |w| == 0 {
      assert w + t == t;
    } else {
      assert (w + t)[0] == w[0] && (w + t)[1..] == w[1..] + t;
      LStripSkips(w[1..], t);
    }
  }

  lemma {:induction false} RStripSkips(t: string, w: string)
    requires AllSpace(w)
    requires |t| > 0 ==> !IsSpace(t[|t| - 1])
    ensures RStrip(t + w) == t
    decreases |w|
  {
    if |w| == 0 {
      assert t + w == t;
    } else {
      var s := t + w;
      assert s[|s| - 1] == w[|w| - 1];
      assert s[..|s| - 1] == t + w[..|w| - 1];
      RStripSkips(t, w[..|w| - 1]);
    }
  }

  /** `strip()` is characterised by its result: whatever whitespace surrounds a
      string with non-whitespace ends, stripping gives exactly that string. */
  lemma StripUnique(lead: string, m: string, trail: string)
    requires AllSpace(lead) && AllSpace(trail) && IsStripped(m)
    ensures Strip(lead + m + trail) == m
  {
    if |m| == 0 {
      assert lead + m + trail == (lead + trail) + "";
      LStripSkips(lead + trail, "");
    } else {
      assert lead + m + trail == lead + (m + trail);
      LStripSkips(lead, m + trail);
      RStripSkips(m, trail);
    }
  }

  /** Every string is its stripped core surrounded by whitespace. */
  lemma StripSurrounded(s: string)
    ensures exists i :: (0 <= i <= |s| - |Strip(s)| && AllSpace(s[..i])
                         && Strip(s) == s[i..i + |Strip(s)|] && AllSpace(s[i + |Strip(s)|..]))
  {
    var l := LStrip(s);
    var r := RStrip(l);
    var i := |s| - |l|;
    assert l == s[i..];
    assert r == s[i..i + |r|];
    assert s[i + |r|..] == l[|r|..];
    assert AllSpace(s[..i]) && AllSpace(s[i + |r|..]);
    assert r == Strip(s);
    assert 0 <= i <= |s| - |Strip(s)| && AllSpace(s[..i])
        && Strip(s) == s[i..i + |Strip(s)|] && AllSpace(s[i + |Strip(s)|..]);
  }

  /** Stripping twice is the same as stripping once. */
  lemma StripIdempotent(s: string)
    ensures Strip(Strip(s)) == Strip(s)
  {
    var m := Strip(s);
    assert "" + m + "" == m;
    StripUnique("", m, "");
  }
}
