/** Python `str` operations the scraper relies on, over `string == seq<char>`:
    substring search, `str.replace` and `str.split` / `str.join` with a
    one-character separator. */
module Text {

  /** `p` is a prefix of `s` (Python's `s.startswith(p)`). */
  predicate IsPrefix(p: string, s: string)
  {
    |p| <= |s| && s[..|p|] == p
  }

  /** `p` occurs in `s` at some position (Python's `p in s`). */
  predicate Contains(s: string, p: string)
    decreases |s|
  {
    IsPrefix(p, s) || (|s| > 0 && Contains(s[1..], p))
  }

  /** Python's `s.replace(pat, rep)` for a non-empty `pat`: scan left to right,
      replace each occurrence of `pat` by `rep`, and resume the scan after the
      replaced occurrence (occurrences never overlap). */
  function Replace(s: string, pat: string, rep: string): (r: string)
    requires |pat| > 0
    ensures !Contains(s, pat) ==> r == s
    ensures forall d :: d in r ==> d in s || d in rep
    decreases |s|
  {
    if |s| == 0 then []
    else if IsPrefix(pat, s) then rep + Replace(s[|pat|..], pat, rep)
    else [s[0]] + Replace(s[1..], pat, rep)
  }

  /** The first `min(|a|, |b|)` characters of `a` and `b` agree: one of them
      is a prefix of the other. */
  predicate Comparable(a: string, b: string)
  {
    var m := if |a| < |b| then |a| else |b|;
    a[..m] == b[..m]
  }

  /** No non-empty suffix of `a` is comparable with `b`. When it holds, an
      occurrence of `b` can neither start inside `a` nor straddle its end, and
      no prefix of a piece of text that starts with `a` is a prefix of `b`. */
  predicate Avoids(a: string, b: string)
    decreases |a|
  {
    |a| == 0 || (!Comparable(a, b) && Avoids(a[1..], b))
  }

  /** A one-character pattern occurs exactly when the character does. */
  lemma {:induction false} ContainsChar(s: string, c: char)
    ensures Contains(s, [c]) <==> c in s
    decreases |s|
  {
    if |s| > 0 {
      ContainsChar(s[1..], c);
      assert s == [s[0]] + s[1..];
    }
  }

  /** Replacing a single character distributes over concatenation, because
      an occurrence of a one-character pattern cannot straddle a boundary. */
  lemma {:induction false} ReplaceCharConcat(x: string, y: string, c: char, n: string)
    ensures Replace(x + y, [c], n) == Replace(x, [c], n) + Replace(y, [c], n)
    decreases |x|
  {
    if |x| == 0 {
      assert x + y == y;
    } else {
      var t := x[1..];
      var hd := if x[0] == c then n else [x[0]];
      assert x + y == [x[0]] + (t + y) && x == [x[0]] + t;
      calc {
        Replace(x + y, [c], n);
        { ReplaceCharCons(x[0], t + y, c, n); }
        hd + Replace(t + y, [c], n);
        { ReplaceCharConcat(t, y, c, n); }
        hd + (Replace(t, [c], n) + Replace(y, [c], n));
        (hd + Replace(t, [c], n)) + Replace(y, [c], n);
        { ReplaceCharCons(x[0], t, c, n); }
        Replace(x, [c], n) + Replace(y, [c], n);
      }
    }
  }

  /** Replacing a character in a non-empty text handles its first character
      on its own. */
  lemma ReplaceCharCons(h: char, t: string, c: char, n: string)
    ensures Replace([h] + t, [c], n) == (if h == c then n else [h]) + Replace(t, [c], n)
  {
    var s := [h] + t;
    assert s[0] == h && s[1..] == t;
    assert IsPrefix([c], s) <==> h == c;
  }

  /** After replacing character `c` by `n`, `c` is gone, provided `n` does not
      contain it. */
  lemma {:induction false} ReplaceCharRemoves(s: string, c: char, n: string)
    requires c !in n
    ensures c !in Replace(s, [c], n)
    decreases |s|
  {
    if |s| > 0 {
      ReplaceCharRemoves(s[1..], c, n);
    }
  }

  /** Replacing character `c` keeps every other character of the text. */
  lemma {:induction false} ReplaceCharKeeps(s: string, c: char, n: string, d: char)
    requires d in s && d != c
    ensures d in Replace(s, [c], n)
    decreases |s|
  {
    if s[0] == d {
      assert !IsPrefix([c], s);
    } else {
      ReplaceCharKeeps(s[1..], c, n, d);
    }
  }

  /** When the escaped text starts with the token, any prefix of it is
      comparable with the token. */
  lemma EscapedHeadIsToken(u: string, c: char, n: string, p: string)
    requires |u| > 0 && u[0] == c
    requires IsPrefix(p, Replace(u, [c], n))
    ensures Comparable(p, n)
  {
    var e := Replace(u, [c], n);
    assert IsPrefix([c], u);
    assert e == n + Replace(u[1..], [c], n);
    var m := if |p| < |n| then |p| else |n|;
    assert p[..m] == e[..m] == n[..m];
  }

  /** A prefix `p` of an escaped text that avoids the escape token `n` was
      already a prefix of the unescaped text. */
  lemma {:induction false} EscapedPrefix(u: string, c: char, n: string, p: string)
    requires Avoids(p, n)
    requires IsPrefix(p, Replace(u, [c], n))
    ensures IsPrefix(p, u)
    decreases |u|
  {
    if |p| > 0 && |u| > 0 {
      if u[0] == c {
        EscapedHeadIsToken(u, c, n, p);
      } else {
        var e := Replace(u, [c], n);
        assert e == [u[0]] + Replace(u[1..], [c], n);
        assert IsPrefix(p[1..], Replace(u[1..], [c], n));
        EscapedPrefix(u[1..], c, n, p[1..]);
        assert p == [p[0]] + p[1..];
      }
    }
  }

  /** A prefix of `x + y` is comparable with `x`. */
  lemma PrefixOfConcat(x: string, y: string, p: string)
    requires IsPrefix(p, x + y)
    ensures Comparable(x, p)
  {
    var m := if |x| < |p| then |x| else |p|;
    assert x[..m] == (x + y)[..m] == p[..m];
  }

  /** An occurrence of `p` in `x + y` lies inside `y` when `x` avoids `p`. */
  lemma {:induction false} ContainsAfter(x: string, y: string, p: string)
    requires |p| > 0
    requires Avoids(x, p)
    requires Contains(x + y, p)
    ensures Contains(y, p)
    decreases |x|
  {
    if |x| == 0 {
      assert x + y == y;
    } else if IsPrefix(p, x + y) {
      PrefixOfConcat(x, y, p);
    } else {
      assert (x + y)[1..] == x[1..] + y;
      ContainsAfter(x[1..], y, p);
    }
  }

  /** Escaping character `c` as token `n` creates no new occurrence of a
      pattern `p` that the token neither starts inside nor straddles. */
  lemma {:induction false} NoNewOccurrence(u: string, c: char, n: string, p: string)
    requires |p| > 0
    requires Avoids(p, n) && Avoids(n, p)
    requires Contains(Replace(u, [c], n), p)
    ensures Contains(u, p)
    decreases |u|
  {
    var e := Replace(u, [c], n);
    assert |u| > 0;
    if u[0] == c {
      assert e == n + Replace(u[1..], [c], n);
      ContainsAfter(n, Replace(u[1..], [c], n), p);
      NoNewOccurrence(u[1..], c, n, p);
    } else {
      assert e == [u[0]] + Replace(u[1..], [c], n);
      if IsPrefix(p, e) {
        EscapedPrefix(u, c, n, p);
      } else {
        assert e[1..] == Replace(u[1..], [c], n);
        NoNewOccurrence(u[1..], c, n, p);
      }
    }
  }

  /** Two single-character escapes commute when neither token contains the
      other's character. */
  lemma {:induction false} ReplaceCharsCommute(s: string, a: char, na: string, b: char, nb: string)
    requires a != b && b !in na && a !in nb
    ensures Replace(Replace(s, [a], na), [b], nb) == Replace(Replace(s, [b], nb), [a], na)
    decreases |s|
  {
    if |s| > 0 {
      var t := s[1..];
      ReplaceCharsCommute(t, a, na, b, nb);
      ContainsChar(na, b);
      ContainsChar(nb, a);
      if s[0] == a {
        assert Replace(s, [a], na) == na + Replace(t, [a], na);
        ReplaceCharConcat(na, Replace(t, [a], na), b, nb);
        assert Replace(s, [b], nb) == [a] + Replace(t, [b], nb);
        ReplaceCharConcat([a], Replace(t, [b], nb), a, na);
      } else if s[0] == b {
        assert Replace(s, [b], nb) == nb + Replace(t, [b], nb);
        ReplaceCharConcat(nb, Replace(t, [b], nb), a, na);
        assert Replace(s, [a], na) == [b] + Replace(t, [a], na);
        ReplaceCharConcat([b], Replace(t, [a], na), b, nb);
      } else {
        assert Replace(s, [a], na) == [s[0]] + Replace(t, [a], na);
        assert Replace(s, [b], nb) == [s[0]] + Replace(t, [b], nb);
        ReplaceCharConcat([s[0]], Replace(t, [a], na), b, nb);
        ReplaceCharConcat([s[0]], Replace(t, [b], nb), a, na);
      }
    }
  }

  /** If the escaped text starts with the token although the text does not
      start with the escaped character, the text itself starts with the
      token. */
  lemma EscapedTokenAtHead(t: string, c: char, n: string)
    requires |t| > 0 && t[0] != c && |n| > 0
    requires Avoids(n[1..], n)
    requires IsPrefix(n, Replace(t, [c], n))
    ensures IsPrefix(n, t)
  {
    var e' := Replace(t[1..], [c], n);
    assert Replace(t, [c], n) == [t[0]] + e';
    assert IsPrefix(n[1..], e');
    EscapedPrefix(t[1..], c, n, n[1..]);
    assert n == [n[0]] + n[1..];
  }

  /** Escaping character `c` as token `n` and then turning every `n` back
      into `c` gives the original text, provided the text did not already
      contain the token and the token cannot overlap itself. */
  lemma {:induction false} EscapeRoundTrip(t: string, c: char, n: string)
    requires |n| > 0 && c !in n
    requires Avoids(n[1..], n)
    requires !Contains(t, n)
    ensures Replace(Replace(t, [c], n), n, [c]) == t
    decreases |t|
  {
    if |t| > 0 {
      var e := Replace(t, [c], n);
      var e' := Replace(t[1..], [c], n);
      assert !Contains(t[1..], n);
      EscapeRoundTrip(t[1..], c, n);
      if t[0] == c {
        assert e == n + e';
        assert IsPrefix(n, e);
        assert e[|n|..] == e';
      } else {
        assert e == [t[0]] + e';
        if IsPrefix(n, e) {
          EscapedTokenAtHead(t, c, n);
        }
        assert e[1..] == e';
      }
    }
  }

  /** Python's `s.split(sep)` for a one-character separator: the maximal
      separator-free pieces of `s`, always at least one. */
  function Split(s: string, sep: char): (r: seq<string>)
    ensures |r| >= 1
    ensures forall i :: 0 <= i < |r| ==> sep !in r[i]
    decreases |s|
  {
    if |s| == 0 then [""]
    else if s[0] == sep then [""] + Split(s[1..], sep)
    else
      var rest := Split(s[1..], sep);
      [[s[0]] + rest[0]] + rest[1..]
  }

  /** Python's `sep.join(parts)`. */
  function Join(parts: seq<string>, sep: char): string
    requires |parts| >= 1
    decreases |parts|
  {
    if |parts| == 1 then parts[0] else parts[0] + [sep] + Join(parts[1..], sep)
  }

  /** Joining the pieces with the separator gives back the text, so `Split`
      loses nothing. */
  lemma {:induction false} JoinSplit(s: string, sep: char)
    ensures Join(Split(s, sep), sep) == s
    decreases |s|
  {
    if |s| > 0 {
      JoinSplit(s[1..], sep);
      var rest := Split(s[1..], sep);
      if s[0] == sep {
        assert Split(s, sep)[1..] == rest;
      } else {
        var r := Split(s, sep);
        assert r[0] == [s[0]] + rest[0];
        if |rest| == 1 {
          assert s == [s[0]] + s[1..];
        } else {
          assert r[1..] == rest[1..];
          assert Join(rest, sep) == rest[0] + [sep] + Join(rest[1..], sep);
          assert s == [s[0]] + s[1..];
        }
      }
    }
  }

  /** Splitting a separator-free tail after a separator: the last piece is the
      tail and the piece before it is whatever preceded the separator. */
  lemma {:induction false} SplitLastPieces(a: string, b: string, sep: char)
    requires sep !in a && sep !in b
    ensures Split(a + [sep] + b, sep) == [a, b]
    decreases |a|
  {
    if |a| == 0 {
      assert a + [sep] + b == [sep] + b;
      assert ([sep] + b)[1..] == b;
      SplitFree(b, sep);
    } else {
      assert (a + [sep] + b)[1..] == a[1..] + [sep] + b;
      SplitLastPieces(a[1..], b, sep);
      assert [a[0]] + a[1..] == a;
    }
  }

  /** A separator-free text splits into itself alone. */
  lemma {:induction false} SplitFree(s: string, sep: char)
    requires sep !in s
    ensures Split(s, sep) == [s]
    decreases |s|
  {
    if |s| > 0 {
      SplitFree(s[1..], sep);
      assert [s[0]] + s[1..] == s;
    }
  }

  /** Splitting text that ends with `sep + b + sep`, where `b` is free of the
      separator: the second-to-last piece is `b`. */
  lemma {:induction false} SplitSecondToLast(a: string, b: string, sep: char)
    requires sep !in b
    ensures var r := Split(a + [sep] + b + [sep], sep);
            |r| >= 3 && r[|r| - 2] == b && r[|r| - 1] == ""
    decreases |a|
  {
    var s := a + [sep] + b + [sep];
    if |a| == 0 {
      assert s[1..] == b + [sep];
      SplitLastPieces(b, "", sep);
      assert b + [sep] + "" == b + [sep];
    } else {
      assert s[1..] == a[1..] + [sep] + b + [sep];
      SplitSecondToLast(a[1..], b, sep);
    }
  }
}
