/** `slugify`: lower-case a string, then replace every maximal run of
    characters outside `[a-z0-9]` by a single hyphen. Separators at either end
    are kept, not trimmed. Lower-casing is modelled on ASCII letters only. */
module Utils {

  /** ASCII lower-casing of one character; every other character is kept. */
  function LowerChar(c: char): char {
    if 'A' <= c <= 'Z' then (c as int + 32) as char else c
  }

  function Lower(s: string): (r: string)
    ensures |r| == |s|
    ensures forall i :: 0 <= i < |s| ==> r[i] == LowerChar(s[i])
  {
    seq(|s|, i requires 0 <= i < |s| => LowerChar(s[i]))
  }

  /** The character class `[a-z0-9]` of the regular expression. */
  predicate IsSlugChar(c: char) {
    'a' <= c <= 'z' || '0' <= c <= '9'
  }

  /** A slug holds only `[a-z0-9]` and `-`, and never two hyphens in a row. */
  predicate IsSlug(s: string) {
    && (forall i :: 0 <= i < |s| ==> IsSlugChar(s[i]) || s[i] == '-')
    && (forall i :: 0 <= i < |s| - 1 ==> !(s[i] == '-' && s[i + 1] == '-'))
  }

  /** The `[a-z0-9]` characters of `s`, in order. */
  function SlugChars(s: string): (r: string)
    ensures |r| <= |s|
  {
    if s == [] then [] else (if IsSlugChar(s[0]) then [s[0]] else []) + SlugChars(s[1..])
  }

  /** Drops the remainder of a run of separators: what is left is empty or
      starts with a slug character, and only separators were dropped. */
  function SkipRun(s: string): (r: string)
    ensures |r| <= |s|
    ensures r == [] || IsSlugChar(r[0])
  {
    if s == [] || IsSlugChar(s[0]) then s else SkipRun(s[1..])
  }

  /** Skipping a run drops separators only. */
  lemma {:induction false} SkipRunChars(s: string)
    ensures SlugChars(SkipRun(s)) == SlugChars(s)
    decreases |s|
  {
    if s != [] && !IsSlugChar(s[0]) {
      SkipRunChars(s[1..]);
    }
  }

  /** The `replace(/[^a-z0-9]+/g, "-")` step on an already lower-cased string. */
  function CollapseRuns(s: string): (r: string)
    ensures |r| <= |s|
    ensures r == [] <==> s == []
    ensures r != [] ==> (r[0] == '-' <==> !IsSlugChar(s[0]))
    decreases |s|
  {
    if s == [] then []
    else if IsSlugChar(s[0]) then
      var rest := CollapseRuns(s[1..]);
      assert ([s[0]] + rest)[1..] == rest;
      [s[0]] + rest
    else
      var tail := SkipRun(s[1..]);
      var rest := CollapseRuns(tail);
      assert ("-" + rest)[1..] == rest;
      "-" + rest
  }

  /** `slugify` on a string (a non-string input is returned unchanged; the
      only caller handles that case itself). */
  function Slugify(s: string): (r: string)
    ensures |r| <= |s|
    ensures r == [] <==> s == []
    ensures IsSlug(r)
    ensures SlugChars(r) == SlugChars(Lower(s))
  {
    CollapseRunsSlug(Lower(s));
    CollapseRuns(Lower(s))
  }

  /** The replace yields a slug and keeps the `[a-z0-9]` characters, in
      order. */
  lemma {:induction false} CollapseRunsSlug(s: string)
    ensures IsSlug(CollapseRuns(s))
    ensures SlugChars(CollapseRuns(s)) == SlugChars(s)
    decreases |s|
  {
    if s != [] {
      var c := s[0];
      if IsSlugChar(c) {
        var rest := CollapseRuns(s[1..]);
        CollapseRunsSlug(s[1..]);
        var r := [c] + rest;
        assert CollapseRuns(s) == r;
        assert r[1..] == rest;
        forall i | 0 <= i < |r| - 1 ensures !(r[i] == '-' && r[i + 1] == '-') {
          if i > 0 {
            assert r[i] == rest[i - 1] && r[i + 1] == rest[i];
          }
        }
        assert forall i :: 0 < i < |r| ==> r[i] == rest[i - 1];
      } else {
        var tail := SkipRun(s[1..]);
        var rest := CollapseRuns(tail);
        CollapseRunsSlug(tail);
        SkipRunChars(s[1..]);
        var r := "-" + rest;
        assert CollapseRuns(s) == r;
        assert r[1..] == rest;
        assert rest != [] ==> rest[0] != '-';
        forall i | 0 <= i < |r| - 1 ensures !(r[i] == '-' && r[i + 1] == '-') {
          if i > 0 {
            assert r[i] == rest[i - 1] && r[i + 1] == rest[i];
          }
        }
        assert forall i :: 0 < i < |r| ==> r[i] == rest[i - 1];
      }
    }
  }

  /** A slug is its own lower-casing. */
  lemma {:induction false} LowerOfSlug(s: string)
    requires IsSlug(s)
    ensures Lower(s) == s
  {
    forall i | 0 <= i < |s| ensures Lower(s)[i] == s[i] {
      assert IsSlugChar(s[i]) || s[i] == '-';
    }
  }

  /** Collapsing the runs of a slug changes nothing. */
  lemma {:induction false} CollapseOfSlug(s: string)
    requires IsSlug(s)
    ensures CollapseRuns(s) == s
    decreases |s|
  {
    if s != [] {
      assert IsSlug(s[1..]) by {
        forall i | 0 <= i < |s[1..]| ensures IsSlugChar(s[1..][i]) || s[1..][i] == '-' {
          assert s[1..][i] == s[i + 1];
        }
        forall i | 0 <= i < |s[1..]| - 1 ensures !(s[1..][i] == '-' && s[1..][i + 1] == '-') {
          assert s[1..][i] == s[i + 1] && s[1..][i + 1] == s[i + 2];
        }
      }
      CollapseOfSlug(s[1..]);
      if !IsSlugChar(s[0]) {
        assert s[0] == '-';
        assert s[1..] == [] || IsSlugChar(s[1..][0]) by {
          if s[1..] != [] {
            assert s[1..][0] == s[1];
          }
        }
        assert SkipRun(s[1..]) == s[1..];
      }
      assert s == [s[0]] + s[1..];
    }
  }

  /** A slug is its own slugify. */
  lemma SlugifyOfSlug(s: string)
    requires IsSlug(s)
    ensures Slugify(s) == s
  {
    LowerOfSlug(s);
    CollapseOfSlug(s);
  }

  /** slugify is idempotent. */
  lemma SlugifyIdempotent(s: string)
    ensures Slugify(Slugify(s)) == Slugify(s)
  {
    SlugifyOfSlug(Slugify(s));
  }

  /** A slug character is kept as it is. */
  lemma CollapseKeeps(c: char, t: string)
    requires IsSlugChar(c)
    ensures CollapseRuns([c] + t) == [c] + CollapseRuns(t)
  {
    assert ([c] + t)[1..] == t;
  }

  /** A separator followed by a slug character, or by nothing, becomes one
      hyphen. */
  lemma CollapseSeparator(c: char, t: string)
    requires !IsSlugChar(c) && (t == [] || IsSlugChar(t[0]))
    ensures CollapseRuns([c] + t) == "-" + CollapseRuns(t)
  {
    assert ([c] + t)[1..] == t;
  }

  /** Worked values: type attributes of the forecast document. */
  lemma SlugifyHourly()
    ensures Slugify("hourly") == "hourly"
  {
    var s := "hourly";
    assert IsSlug(s) by {
      assert forall i :: 0 <= i < |s| ==> IsSlugChar(s[i]);
    }
    SlugifyOfSlug(s);
  }

  lemma SlugifyTwelveHour(s: string)
    requires s == "12 hour"
    ensures Slugify(s) == "12-hour"
  {
    var hour := "hour";
    var t1 := [' '] + hour;
    var t2 := ['2'] + t1;
    var t3 := ['1'] + t2;
    assert CollapseRuns(t3) == ['1'] + (['2'] + ("-" + hour)) by {
      assert CollapseRuns(t2) == ['2'] + ("-" + hour) by {
        assert CollapseRuns(t1) == "-" + hour by {
          assert CollapseRuns(hour) == hour by {
            assert IsSlug(hour) by {
              assert forall i :: 0 <= i < |hour| ==> IsSlugChar(hour[i]);
            }
            CollapseOfSlug(hour);
          }
          CollapseSeparator(' ', hour);
        }
        CollapseKeeps('2', t1);
      }
      CollapseKeeps('1', t2);
    }
    assert ['1'] + (['2'] + ("-" + hour)) == "12-hour";
    assert Lower(s) == t3;
  }

  /** A worked value: upper case is lowered, and the separator runs at the
      start, in the middle and at the end each become one hyphen. */
  lemma SlugifyKeepsEnds(s: string)
    requires s == " A, b!"
    ensures Slugify(s) == "-a-b-"
  {
    var s1, s2, s3 := [' '], [',', ' '], ['!'];
    assert Lower(s) == s1 + (['a'] + (s2 + (['b'] + s3)));
    CollapseThreeRuns(s1, 'a', s2, 'b', s3);
  }

  /** Separator runs around and between two slug characters. */
  lemma CollapseThreeRuns(s1: string, p: char, s2: string, q: char, s3: string)
    requires IsSlugChar(p) && IsSlugChar(q)
    requires s1 != [] && forall i :: 0 <= i < |s1| ==> !IsSlugChar(s1[i])
    requires s2 != [] && forall i :: 0 <= i < |s2| ==> !IsSlugChar(s2[i])
    requires s3 != [] && forall i :: 0 <= i < |s3| ==> !IsSlugChar(s3[i])
    ensures CollapseRuns(s1 + ([p] + (s2 + ([q] + s3)))) == "-" + ([p] + ("-" + ([q] + "-")))
  {
    var last := [q] + s3;
    var middle := [p] + (s2 + last);
    assert CollapseRuns(last) == [q] + "-" by {
      SlugThenFinalRun(q, s3);
    }
    assert CollapseRuns(middle) == [p] + ("-" + ([q] + "-")) by {
      SlugThenRun(p, s2, last);
    }
    SeparatorsThen(s1, middle);
  }

  /** A slug character followed by a separator run that ends the string. */
  lemma SlugThenFinalRun(q: char, sep: string)
    requires IsSlugChar(q)
    requires sep != [] && forall i :: 0 <= i < |sep| ==> !IsSlugChar(sep[i])
    ensures CollapseRuns([q] + sep) == [q] + "-"
  {
    CollapseKeeps(q, sep);
    SeparatorRun(sep);
  }

  /** A slug character followed by a separator run and more text. */
  lemma SlugThenRun(p: char, sep: string, rest: string)
    requires IsSlugChar(p)
    requires sep != [] && forall i :: 0 <= i < |sep| ==> !IsSlugChar(sep[i])
    requires rest == [] || IsSlugChar(rest[0])
    ensures CollapseRuns([p] + (sep + rest)) == [p] + ("-" + CollapseRuns(rest))
  {
    CollapseKeeps(p, sep + rest);
    SeparatorsThen(sep, rest);
  }

  /** The rest of a run that holds only separators is skipped whole. */
  lemma {:induction false} SkipSeparators(sep: string, y: string)
    requires forall i :: 0 <= i < |sep| ==> !IsSlugChar(sep[i])
    requires y == [] || IsSlugChar(y[0])
    ensures SkipRun(sep + y) == y
    decreases |sep|
  {
    if sep == [] {
      assert sep + y == y;
    } else {
      assert (sep + y)[0] == sep[0];
      assert (sep + y)[1..] == sep[1..] + y;
      SkipSeparators(sep[1..], y);
    }
  }

  /** Skipping the rest of a run stops inside a string that ends in a slug
      character, so what follows it is kept. */
  lemma {:induction false} SkipRunAppend(x: string, y: string)
    requires x != [] && IsSlugChar(x[|x| - 1])
    ensures SkipRun(x) != [] && |SkipRun(x)| <= |x|
    ensures SkipRun(x)[|SkipRun(x)| - 1] == x[|x| - 1]
    ensures SkipRun(x + y) == SkipRun(x) + y
    decreases |x|
  {
    assert (x + y)[0] == x[0];
    if !IsSlugChar(x[0]) {
      assert (x + y)[1..] == x[1..] + y;
      assert x[1..][|x[1..]| - 1] == x[|x| - 1];
      SkipRunAppend(x[1..], y);
    }
  }

  /** The replace works piecewise: a string that ends in a slug character
      (or is empty) collapses independently of what follows it. */
  lemma {:induction false} CollapseAppend(x: string, y: string)
    requires x == [] || IsSlugChar(x[|x| - 1])
    ensures CollapseRuns(x + y) == CollapseRuns(x) + CollapseRuns(y)
    decreases |x|
  {
    if x == [] {
      assert x + y == y;
    } else {
      var c, t := x[0], x[1..];
      assert x == [c] + t;
      assert x + y == [c] + (t + y);
      if IsSlugChar(c) {
        assert CollapseRuns(t + y) == CollapseRuns(t) + CollapseRuns(y) by {
          assert t == [] || t[|t| - 1] == x[|x| - 1];
          CollapseAppend(t, y);
        }
        KeepThenAppend(c, t, y);
      } else {
        assert SkipRun(t + y) == SkipRun(t) + y &&
               CollapseRuns(SkipRun(t) + y) == CollapseRuns(SkipRun(t)) + CollapseRuns(y) by {
          assert t != [] && t[|t| - 1] == x[|x| - 1];
          SkipRunAppend(t, y);
          CollapseAppend(SkipRun(t), y);
        }
        SkipThenAppend(c, t, y);
      }
    }
  }

  /** The step of CollapseAppend for a leading slug character. */
  lemma KeepThenAppend(c: char, t: string, y: string)
    requires IsSlugChar(c)
    requires CollapseRuns(t + y) == CollapseRuns(t) + CollapseRuns(y)
    ensures CollapseRuns([c] + (t + y)) == CollapseRuns([c] + t) + CollapseRuns(y)
  {
    var a, b := CollapseRuns(t), CollapseRuns(y);
    assert CollapseRuns([c] + (t + y)) == [c] + (a + b) by {
      CollapseKeeps(c, t + y);
    }
    assert CollapseRuns([c] + t) == [c] + a by {
      CollapseKeeps(c, t);
    }
    Regroup([c], a, b);
  }

  /** Concatenation regroups; kept apart so that the steps above do not
      search for it among their other facts. */
  lemma Regroup(p: string, a: string, b: string)
    ensures p + (a + b) == (p + a) + b
  {
  }

  /** The step of CollapseAppend for a leading separator: the rest of its run
      is skipped before `y` is reached. */
  lemma SkipThenAppend(c: char, t: string, y: string)
    requires !IsSlugChar(c)
    requires SkipRun(t + y) == SkipRun(t) + y
    requires CollapseRuns(SkipRun(t) + y) == CollapseRuns(SkipRun(t)) + CollapseRuns(y)
    ensures CollapseRuns([c] + (t + y)) == CollapseRuns([c] + t) + CollapseRuns(y)
  {
    var u := SkipRun(t);
    assert CollapseRuns([c] + (t + y)) == "-" + (CollapseRuns(u) + CollapseRuns(y)) by {
      CollapseSeparatorSkips(c, t + y);
    }
    assert CollapseRuns([c] + t) == "-" + CollapseRuns(u) by {
      CollapseSeparatorSkips(c, t);
    }
    Regroup("-", CollapseRuns(u), CollapseRuns(y));
  }

  /** A leading separator becomes a hyphen, and the rest of its run is
      skipped. */
  lemma CollapseSeparatorSkips(c: char, w: string)
    requires !IsSlugChar(c)
    ensures CollapseRuns([c] + w) == "-" + CollapseRuns(SkipRun(w))
  {
    assert ([c] + w)[0] == c && ([c] + w)[1..] == w;
  }

  /** Each maximal run of separators, wherever it stands, becomes exactly one
      hyphen: the text before it (empty or ending in a slug character) and the
      text after it (empty or starting with one) collapse on their own. */
  lemma RunBetween(x: string, sep: string, y: string)
    requires x == [] || IsSlugChar(x[|x| - 1])
    requires sep != [] && forall i :: 0 <= i < |sep| ==> !IsSlugChar(sep[i])
    requires y == [] || IsSlugChar(y[0])
    ensures CollapseRuns(x + (sep + y)) == CollapseRuns(x) + ("-" + CollapseRuns(y))
  {
    SeparatorsThen(sep, y);
    CollapseAppend(x, sep + y);
  }

  /** A run of separators in front of a slug character, or of nothing,
      becomes one hyphen. */
  lemma SeparatorsThen(sep: string, y: string)
    requires sep != [] && forall i :: 0 <= i < |sep| ==> !IsSlugChar(sep[i])
    requires y == [] || IsSlugChar(y[0])
    ensures CollapseRuns(sep + y) == "-" + CollapseRuns(y)
  {
    var tail := sep + y;
    assert tail[0] == sep[0];
    assert SkipRun(tail[1..]) == y by {
      assert tail[1..] == sep[1..] + y;
      SkipSeparators(sep[1..], y);
    }
  }

  /** A string of separators alone is one hyphen. */
  lemma SeparatorRun(sep: string)
    requires sep != [] && forall i :: 0 <= i < |sep| ==> !IsSlugChar(sep[i])
    ensures CollapseRuns(sep) == "-"
  {
    SeparatorsThen(sep, []);
    assert sep + [] == sep;
  }
}
