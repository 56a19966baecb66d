/** The pieces of Python's `str` behaviour that the generator relies on:
    whitespace stripping, substring search, lower-casing, splitting and joining,
    and the net parenthesis nesting that both of its depth counters track. */
module Text {

  datatype Option<+T> = None | Some(value: T)

  /** `c.isspace()` in Python: the characters `str.strip()` removes. */
  predicate IsSpace(c: char)
  {
    || ('\t' <= c <= '\r')
    || ('\U{1C}' <= c <= '\U{1F}')
    || c == ' ' || c == '\U{85}' || c == '\U{A0}' || c == '\U{1680}'
    || ('\U{2000}' <= c <= '\U{200A}')
    || c == '\U{2028}' || c == '\U{2029}' || c == '\U{202F}' || c == '\U{205F}' || c == '\U{3000}'
  }

  predicate AllSpace(s: string)
  {
    forall i :: 0 <= i < |s| ==> IsSpace(s[i])
  }

  /** `s.lstrip()`. */
  function TrimLeft(s: string): string
  {
    if s != [] && IsSpace(s[0]) then TrimLeft(s[1..]) else s
  }

  /** `s.rstrip()`. */
  function TrimRight(s: string): string
  {
    if s != [] && IsSpace(s[|s| - 1]) then TrimRight(s[..|s| - 1]) else s
  }

  /** `s.strip()`. */
  function Strip(s: string): string
  {
    TrimRight(TrimLeft(s))
  }

  /** `lstrip` removes a leading run of whitespace and nothing else. */
  lemma {:induction false} TrimLeftFacts(s: string)
    ensures var r := TrimLeft(s);
      && |r| <= |s| && r == s[|s| - |r|..]
      && AllSpace(s[..|s| - |r|])
      && (r == [] || !IsSpace(r[0]))
    decreases |s|
  {
    if s != [] && IsSpace(s[0]) {
      TrimLeftFacts(s[1..]);
      var r := TrimLeft(s);
      assert s[..|s| - |r|] == [s[0]] + s[1..][..|s| - 1 - |r|];
    }
  }

  /** `rstrip` removes a trailing run of whitespace and nothing else. */
  lemma {:induction false} TrimRightFacts(s: string)
    ensures var r := TrimRight(s);
      && |r| <= |s| && r == s[..|r|]
      && AllSpace(s[|r|..])
      && (r == [] || !IsSpace(r[|r| - 1]))
    decreases |s|
  {
    if s != [] && IsSpace(s[|s| - 1]) {
      TrimRightFacts(s[..|s| - 1]);
      var r := TrimRight(s);
      assert s[|r|..] == s[..|s| - 1][|r|..] + [s[|s| - 1]];
    }
  }

  /** `strip` is empty exactly for blank text; otherwise what it keeps
      neither starts nor ends with whitespace. */
  lemma StripFacts(s: string)
    ensures Strip(s) == [] <==> AllSpace(s)
    ensures Strip(s) != [] ==> !IsSpace(Strip(s)[0]) && !IsSpace(Strip(s)[|Strip(s)| - 1])
  {
    var t := TrimLeft(s);
    TrimLeftFacts(s);
    TrimRightFacts(t);
    assert s == s[..|s| - |t|] + t;
    if t != [] {
      assert s[|s| - |t|] == t[0];
    }
  }

  /** Text that neither starts nor ends with whitespace is left alone. */
  lemma StripUnchanged(s: string)
    requires s == [] || (!IsSpace(s[0]) && !IsSpace(s[|s| - 1]))
    ensures Strip(s) == s
  {
  }

  /** `p` occurs in `s` starting at index `i`. */
  predicate OccursAt(s: string, p: string, i: int)
  {
    0 <= i && i + |p| <= |s| && s[i..i + |p|] == p
  }

  /** An occurrence stays one when text is put around it. */
  lemma OccursInContext(t: string, a: string, s: string, b: string, p: string, k: int)
    requires t == a + s + b && OccursAt(s, p, k)
    ensures OccursAt(t, p, |a| + k)
  {
    assert t[|a| + k..|a| + k + |p|] == s[k..k + |p|];
  }

  /** An occurrence after the first character is one in the rest of the text. */
  lemma OccursShift(s: string, p: string, i: int)
    requires 0 < i && i + |p| <= |s|
    ensures OccursAt(s, p, i) <==> OccursAt(s[1..], p, i - 1)
  {
    assert s[i..i + |p|] == s[1..][i - 1..i - 1 + |p|];
  }

  /** `p in s` for two strings: `p` occurs in `s` as a contiguous part. */
  function Contains(s: string, p: string): bool
    decreases |s|
  {
    |p| <= |s| && (s[..|p|] == p || Contains(s[1..], p))
  }

  lemma {:induction false} ContainsIff(s: string, p: string)
    ensures Contains(s, p) <==> exists i :: OccursAt(s, p, i)
    decreases |s|
  {
    if |p| <= |s| {
      if s[..|p|] == p {
        assert OccursAt(s, p, 0);
      } else {
        ContainsIff(s[1..], p);
        if Contains(s[1..], p) {
          var i :| OccursAt(s[1..], p, i);
          OccursShift(s, p, i + 1);
        } else {
          forall i | OccursAt(s, p, i)
            ensures false
          {
            if i > 0 {
              OccursShift(s, p, i);
            }
          }
        }
      }
    }
  }

  /** Every character of a contained text occurs in the containing one. */
  lemma {:induction false} ContainsHasChars(s: string, p: string, k: nat)
    requires Contains(s, p) && k < |p|
    ensures p[k] in s
    decreases |s|
  {
    if s[..|p|] == p {
      assert s[..|p|][k] == s[k];
    } else {
      ContainsHasChars(s[1..], p, k);
      var j :| 0 <= j < |s| - 1 && s[1..][j] == p[k];
      assert s[j + 1] == p[k];
    }
  }

  /** Text that lacks one of the characters of `p` does not contain `p`. */
  lemma MissingChar(s: string, p: string, k: nat)
    requires k < |p| && p[k] !in s
    ensures !Contains(s, p)
  {
    if Contains(s, p) {
      ContainsHasChars(s, p, k);
    }
  }

  /** `s.find(p, k)`: the first index at or after `k` where `p` occurs, or -1. */
  function FindFrom(s: string, p: string, k: nat): (r: int)
    requires k <= |s|
    ensures r == -1 || (k <= r && OccursAt(s, p, r))
    ensures forall i :: k <= i && (r == -1 || i < r) ==> !OccursAt(s, p, i)
    decreases |s| - k
  {
    if k + |p| > |s| then -1
    else if s[k..k + |p|] == p then k
    else FindFrom(s, p, k + 1)
  }

  /** `s.find(p)`. */
  function Find(s: string, p: string): (r: int)
    ensures r == -1 || OccursAt(s, p, r)
    ensures forall i :: (r == -1 || i < r) ==> !OccursAt(s, p, i)
  {
    FindFrom(s, p, 0)
  }

  /** `s[k:]`: Python slicing past the end gives the empty string. */
  function Tail(s: string, k: nat): (r: string)
  {
    if k <= |s| then s[k..] else []
  }

  /** `c.lower()` on the ASCII letters. */
  function LowerChar(c: char): char
  {
    if 'A' <= c <= 'Z' then (c as int + 32) as char else c
  }

  /** `s.lower()`, letter by letter. */
  function Lower(s: string): string
  {
    seq(|s|, i requires 0 <= i < |s| => LowerChar(s[i]))
  }

  /** How a character changes the nesting of parentheses. */
  function Delta(c: char): int
  {
    if c == '(' then 1 else if c == ')' then -1 else 0
  }

  /** The nesting of parentheses after `s`: the running total of Delta. */
  function Depth(s: string): int
  {
    if s == [] then 0 else Depth(s[..|s| - 1]) + Delta(s[|s| - 1])
  }

  lemma {:induction false} DepthAppend(a: string, b: string)
    ensures Depth(a + b) == Depth(a) + Depth(b)
    decreases |b|
  {
    if b == [] {
      assert a + b == a;
    } else {
      var b0 := b[..|b| - 1];
      assert (a + b)[..|a + b| - 1] == a + b0;
      DepthAppend(a, b0);
    }
  }

  lemma {:induction false} DepthWithoutParens(s: string)
    requires '(' !in s && ')' !in s
    ensures Depth(s) == 0
    decreases |s|
  {
    if s != [] {
      DepthWithoutParens(s[..|s| - 1]);
    }
  }

  /** `''.join(ss)`. */
  function Concat(ss: seq<string>): string
  {
    if ss == [] then [] else Concat(ss[..|ss| - 1]) + ss[|ss| - 1]
  }

  lemma {:induction false} ConcatAppend(a: seq<string>, b: seq<string>)
    ensures Concat(a + b) == Concat(a) + Concat(b)
    decreases |b|
  {
    if b != [] {
      assert (a + b)[..|a + b| - 1] == a + b[..|b| - 1];
      ConcatAppend(a, b[..|b| - 1]);
    } else {
      assert a + b == a;
    }
  }

  lemma AppendAssoc(a: string, b: string, c: string)
    ensures a + (b + c) == a + b + c
  {
  }

  lemma ConcatSnoc(ss: seq<string>, x: string)
    ensures Concat(ss + [x]) == Concat(ss) + x
  {
    assert (ss + [x])[..|ss|] == ss;
  }

  lemma ConcatTake(ss: seq<string>, i: nat)
    requires i < |ss|
    ensures Concat(ss[..i + 1]) == Concat(ss[..i]) + ss[i]
  {
    assert ss[..i + 1][..i] == ss[..i];
  }

  lemma ConcatSplitAt(ss: seq<string>, i: nat)
    requires i <= |ss|
    ensures Concat(ss) == Concat(ss[..i]) + Concat(ss[i..])
  {
    var a, b := ss[..i], ss[i..];
    ConcatAppend(a, b);
    assert a + b == ss;
  }

  lemma ConcatAround(ss: seq<string>, i: nat)
    requires i < |ss|
    ensures Concat(ss) == Concat(ss[..i]) + ss[i] + Concat(ss[i + 1..])
  {
    ConcatSplitAt(ss, i + 1);
    ConcatTake(ss, i);
  }

  /** Each element rendered as text, in order. */
  function Render<T>(xs: seq<T>, f: T -> string): seq<string>
  {
    seq(|xs|, k requires 0 <= k < |xs| => f(xs[k]))
  }

  lemma RenderSnoc<T>(xs: seq<T>, f: T -> string, j: nat)
    requires j < |xs|
    ensures Render(xs[..j + 1], f) == Render(xs[..j], f) + [f(xs[j])]
  {
  }

  lemma RenderAppend<T>(a: seq<T>, b: seq<T>, f: T -> string)
    ensures Render(a + b, f) == Render(a, f) + Render(b, f)
  {
  }

  /** `sep.join(ss)`. */
  function Join(ss: seq<string>, sep: string): string
  {
    if |ss| == 0 then []
    else if |ss| == 1 then ss[0]
    else Join(ss[..|ss| - 1], sep) + sep + ss[|ss| - 1]
  }

  /** A character added to the last part ends up at the end of the join. */
  lemma JoinExtendLast(ps: seq<string>, sep: string, c: char)
    requires |ps| >= 1
    ensures Join(ps[..|ps| - 1] + [ps[|ps| - 1] + [c]], sep) == Join(ps, sep) + [c]
  {
    var n, last := |ps|, ps[|ps| - 1];
    var q := ps[..n - 1] + [last + [c]];
    if n > 1 {
      assert q[..n - 1] == ps[..n - 1];
      AppendAssoc(Join(ps[..n - 1], sep) + sep, last, [c]);
    }
  }

  /** Joining with `sep` and putting `sep` in front puts `sep` in front of every part. */
  lemma {:induction false} SepJoin(ss: seq<string>, sep: string)
    requires |ss| > 0
    ensures sep + Join(ss, sep) == Concat(seq(|ss|, k requires 0 <= k < |ss| => sep + ss[k]))
    decreases |ss|
  {
    var prefixed := seq(|ss|, k requires 0 <= k < |ss| => sep + ss[k]);
    if |ss| == 1 {
      assert prefixed[..0] == [];
    } else {
      var init := ss[..|ss| - 1];
      SepJoin(init, sep);
      assert prefixed[..|ss| - 1] == seq(|init|, k requires 0 <= k < |init| => sep + init[k]);
    }
  }

  /** `s.split(sep)` for a one-character separator. */
  function Split(s: string, sep: char): (ps: seq<string>)
    ensures |ps| >= 1
  {
    if s == [] then [[]]
    else
      var ps0 := Split(s[..|s| - 1], sep);
      if s[|s| - 1] == sep then ps0 + [[]]
      else ps0[..|ps0| - 1] + [ps0[|ps0| - 1] + [s[|s| - 1]]]
  }

  /** Splitting loses nothing: joining the parts back gives the text. */
  lemma {:induction false} SplitJoin(s: string, sep: char)
    ensures Join(Split(s, sep), [sep]) == s
    decreases |s|
  {
    if s != [] {
      var init, c := s[..|s| - 1], s[|s| - 1];
      var ps0 := Split(init, sep);
      SplitJoin(init, sep);
      assert s == init + [c];
      var ps := Split(s, sep);
      if c == sep {
        assert ps == ps0 + [[]];
        assert ps[..|ps| - 1] == ps0;
        calc {
          Join(ps, [sep]);
          Join(ps0, [sep]) + [sep] + [];
          init + [c];
        }
      } else {
        var n := |ps0|;
        assert ps == ps0[..n - 1] + [ps0[n - 1] + [c]];
        if n == 1 {
          assert Join(ps, [sep]) == ps0[0] + [c];
        } else {
          assert ps[..n - 1] == ps0[..n - 1];
          calc {
            Join(ps, [sep]);
            Join(ps0[..n - 1], [sep]) + [sep] + (ps0[n - 1] + [c]);
            (Join(ps0[..n - 1], [sep]) + [sep] + ps0[n - 1]) + [c];
            Join(ps0, [sep]) + [c];
          }
        }
      }
    }
  }

  /** No part of a split contains the separator. */
  lemma {:induction false} SplitPartsFree(s: string, sep: char)
    ensures forall k :: 0 <= k < |Split(s, sep)| ==> sep !in Split(s, sep)[k]
    decreases |s|
  {
    if s != [] {
      SplitPartsFree(s[..|s| - 1], sep);
    }
  }

  /** The positions of `s` whose element satisfies `p`. */
  function Indices<T>(s: seq<T>, p: T -> bool): set<int>
  {
    set k | 0 <= k < |s| && p(s[k])
  }

  lemma IndicesSnoc<T>(s: seq<T>, p: T -> bool)
    requires s != []
    ensures |Indices(s, p)| == |Indices(s[..|s| - 1], p)| + (if p(s[|s| - 1]) then 1 else 0)
  {
    var n := |s| - 1;
    var a := Indices(s[..n], p);
    if p(s[n]) {
      assert Indices(s, p) == a + {n};
    } else {
      assert Indices(s, p) == a;
    }
  }
}
