/**
 * The string operations of the CI driver, stated exactly as the Python
 * primitives it calls behave on `str` values: `strip()`, `in`, `endswith`,
 * `replace(p, "")`, `split('.')[0]`, `os.path.basename`, `os.path.splitext`,
 * and the regular-expression substitutions and split it performs.
 */
module Text {
  import opened Wrappers

  /** `str.isspace()` (and the `\s` class of a `str` pattern): the code points
      9-13, 28-32, 0x85, 0xA0, 0x1680, 0x2000-0x200A, 0x2028, 0x2029, 0x202F,
      0x205F and 0x3000. */
  predicate IsSpace(c: char) {
    var n := c as int;
    (9 <= n <= 13) || (28 <= n <= 32) || n == 0x85 || n == 0xA0 || n == 0x1680
    || (0x2000 <= n <= 0x200A) || n == 0x2028 || n == 0x2029 || n == 0x202F
    || n == 0x205F || n == 0x3000
  }

  predicate StartsWith(s: string, p: string) {
    |p| <= |s| && s[..|p|] == p
  }

  /** `s.endswith(p)` */
  predicate EndsWith(s: string, p: string) {
    |p| <= |s| && s[|s| - |p|..] == p
  }

  /** Strings ending in different characters do not end with each other. */
  lemma NotEndsWithLast(s: string, p: string)
    requires |s| > 0 && |p| > 0 && s[|s| - 1] != p[|p| - 1]
    ensures !EndsWith(s, p)
  {
  }

  /** Ending with `a + b` means ending with `b`. */
  lemma EndsWithTail(s: string, a: string, b: string)
    requires EndsWith(s, a + b)
    ensures EndsWith(s, b)
  {
    assert s[|s| - |b|..] == s[|s| - |a + b|..][|a|..];
  }

  /** `p in s`: some position of `s` starts an occurrence of `p`. */
  predicate Contains(s: string, p: string)
    decreases |s|
  {
    StartsWith(s, p) || (|s| > 0 && Contains(s[1..], p))
  }

  /** An occurrence at a known position makes `p in s` true. */
  lemma {:induction false} ContainsAt(s: string, p: string, i: nat)
    requires i + |p| <= |s| && s[i..i + |p|] == p
    ensures Contains(s, p)
    decreases i
  {
    if i > 0 {
      assert s[1..][i - 1..i - 1 + |p|] == s[i..i + |p|];
      ContainsAt(s[1..], p, i - 1);
    } else {
      assert s[..|p|] == s[0..|p|];
    }
  }

  /** A string contains every character of a pattern it contains. */
  lemma {:induction false} ContainsChars(s: string, p: string, c: char)
    requires Contains(s, p) && c in p
    ensures c in s
    decreases |s|
  {
    if StartsWith(s, p) {
      var k :| 0 <= k < |p| && p[k] == c;
      assert s[k] == c;
    } else {
      ContainsChars(s[1..], p, c);
      var k :| 0 <= k < |s[1..]| && s[1..][k] == c;
      assert s[k + 1] == c;
    }
  }

  /** Leading whitespace removed: the longest suffix that does not start with
      whitespace, everything dropped in front of it being whitespace. */
  function StripLeft(s: string): (r: string)
    ensures |r| <= |s| && r == s[|s| - |r|..]
    ensures r == [] || !IsSpace(r[0])
    ensures forall i :: 0 <= i < |s| - |r| ==> IsSpace(s[i])
    decreases |s|
  {
    if |s| > 0 && IsSpace(s[0]) then StripLeft(s[1..]) else s
  }

  /** Trailing whitespace removed: the longest prefix that does not end with
      whitespace, everything dropped behind it being whitespace. */
  function StripRight(s: string): (r: string)
    ensures |r| <= |s| && r == s[..|r|]
    ensures r == [] || !IsSpace(r[|r| - 1])
    ensures forall i :: |r| <= i < |s| ==> IsSpace(s[i])
    decreases |s|
  {
    if |s| > 0 && IsSpace(s[|s| - 1]) then StripRight(s[..|s| - 1]) else s
  }

  /** `s.strip()`: no longer than `s`, and neither starting nor ending with
      whitespace. */
  function Strip(s: string): (r: string)
    ensures |r| <= |s|
    ensures r == [] || (!IsSpace(r[0]) && !IsSpace(r[|r| - 1]))
  {
    StripRight(StripLeft(s))
  }

  /** A prefix `r` of a suffix `l` of `s` is the slice of `s` between them. */
  lemma SliceOfSuffix(s: string, l: string, r: string, i: nat, j: nat)
    requires |l| <= |s| && l == s[|s| - |l|..]
    requires |r| <= |l| && r == l[..|r|]
    requires i == |s| - |l| && j == i + |r|
    ensures j <= |s| && r == s[i..j]
  {
  }

  /** Whitespace behind the prefix `r` of the suffix `l` is whitespace
      behind the same slice of `s`. */
  lemma SpacesBehind(s: string, l: string, r: string)
    requires |l| <= |s| && l == s[|s| - |l|..] && |r| <= |l|
    requires forall k :: |r| <= k < |l| ==> IsSpace(l[k])
    ensures forall k :: |s| - |l| + |r| <= k < |s| ==> IsSpace(s[k])
  {
    forall k | |s| - |l| + |r| <= k < |s| ensures IsSpace(s[k]) {
      assert s[k] == l[k - (|s| - |l|)];
    }
  }

  /** Stripping leaves a slice of the input that neither starts nor ends with
      whitespace, and removes nothing but whitespace. */
  lemma StripIsTrimmedSlice(s: string)
    ensures exists i, j :: 0 <= i <= j <= |s| && Strip(s) == s[i..j]
                           && (forall k :: 0 <= k < i ==> IsSpace(s[k]))
                           && (forall k :: j <= k < |s| ==> IsSpace(s[k]))
    ensures Strip(s) == [] || (!IsSpace(Strip(s)[0]) && !IsSpace(Strip(s)[|Strip(s)| - 1]))
  {
    var l := StripLeft(s);
    var r := StripRight(l);
    var i := |s| - |l|;
    var j := i + |r|;
    SliceOfSuffix(s, l, r, i, j);
    SpacesBehind(s, l, r);
    assert 0 <= i <= j <= |s| && Strip(s) == s[i..j]
           && (forall k :: 0 <= k < i ==> IsSpace(s[k]))
           && (forall k :: j <= k < |s| ==> IsSpace(s[k]));
  }

  /** `re.sub("[\",]+", "", s)`: every double quote and comma deleted. */
  function DropQuotesAndCommas(s: string): (r: string)
    ensures |r| <= |s|
    ensures forall i :: 0 <= i < |r| ==> r[i] != '"' && r[i] != ','
    ensures forall c | c != '"' && c != ',' :: multiset(r)[c] == multiset(s)[c]
    decreases |s|
  {
    if |s| == 0 then s
    else
      assert s == [s[0]] + s[1..];
      if s[0] == '"' || s[0] == ',' then DropQuotesAndCommas(s[1..])
      else [s[0]] + DropQuotesAndCommas(s[1..])
  }

  /** A string holding no quote and no comma passes through unchanged. */
  lemma {:induction false} DropQuotesAndCommasKeepsClean(s: string)
    requires forall i :: 0 <= i < |s| ==> s[i] != '"' && s[i] != ','
    ensures DropQuotesAndCommas(s) == s
    decreases |s|
  {
    if |s| > 0 {
      DropQuotesAndCommasKeepsClean(s[1..]);
      assert [s[0]] + s[1..] == s;
    }
  }

  /** `s.replace(p, "")`: occurrences of `p` deleted, scanning left to right
      without overlap (an empty `p` leaves `s` as it is). */
  function RemoveAll(s: string, p: string): (r: string)
    ensures |r| <= |s|
    ensures multiset(r) <= multiset(s)
    decreases |s|
  {
    if |p| == 0 || |s| == 0 then s
    else if StartsWith(s, p) then
      assert s == s[..|p|] + s[|p|..];
      RemoveAll(s[|p|..], p)
    else
      assert s == [s[0]] + s[1..];
      [s[0]] + RemoveAll(s[1..], p)
  }


  /** Removing a pattern that does not occur changes nothing, and removing
      one that occurs always shortens the string. */
  lemma {:induction false} RemoveAllChangesIffContains(s: string, p: string)
    requires |p| > 0
    ensures RemoveAll(s, p) == s <==> !Contains(s, p)
    ensures Contains(s, p) ==> |RemoveAll(s, p)| < |s|
    decreases |s|
  {
    if |s| == 0 {
      assert !StartsWith(s, p);
    } else if StartsWith(s, p) {
      assert |RemoveAll(s[|p|..], p)| <= |s| - |p|;
    } else {
      RemoveAllChangesIffContains(s[1..], p);
      if RemoveAll(s, p) == s {
        assert RemoveAll(s[1..], p) == s[1..];
      }
    }
  }

  /** Removing `p` from `s + p` gives `s` when `p` does not occur in `s`
      and the first character of `p` does not recur in it (so no occurrence
      straddles the join). */
  lemma {:induction false} RemoveAllAfter(s: string, p: string)
    requires |p| > 0 && p[0] !in p[1..] && !Contains(s, p)
    ensures RemoveAll(s + p, p) == s
    decreases |s|
  {
    var sp := s + p;
    if |s| == 0 {
      assert sp == p;
      assert RemoveAll(sp, p) == RemoveAll(sp[|p|..], p);
    } else {
      assert !StartsWith(sp, p) by {
        if |s| >= |p| {
          assert sp[..|p|] == s[..|p|];
        } else {
          assert sp[|s|] == p[0];
          assert p[|s|] == p[1..][|s| - 1];
        }
      }
      assert sp[1..] == s[1..] + p;
      RemoveAllAfter(s[1..], p);
      assert [s[0]] + s[1..] == s;
    }
  }

  /** `re.sub("/+", "/", s)`: every run of slashes becomes one slash. */
  function CollapseSlashes(s: string): (r: string)
    ensures |r| <= |s|
    ensures |s| > 0 ==> |r| > 0 && r[0] == s[0]
    decreases |s|
  {
    if |s| == 0 then s
    else if |s| >= 2 && s[0] == '/' && s[1] == '/' then CollapseSlashes(s[1..])
    else [s[0]] + CollapseSlashes(s[1..])
  }

  predicate NoDoubleSlash(s: string) {
    forall i :: 0 <= i < |s| - 1 ==> !(s[i] == '/' && s[i + 1] == '/')
  }

  /** The characters of `s` other than slashes, in order. */
  function NonSlashes(s: string): (r: string)
    ensures forall i :: 0 <= i < |r| ==> r[i] != '/'
    decreases |s|
  {
    if |s| == 0 then s
    else if s[0] == '/' then NonSlashes(s[1..])
    else [s[0]] + NonSlashes(s[1..])
  }

  /** Collapsing leaves no two adjacent slashes, keeps every other character
      in order, and keeps a path slash-free exactly when it was. */
  lemma {:induction false} CollapseSlashesSpec(s: string)
    ensures NoDoubleSlash(CollapseSlashes(s))
    ensures NonSlashes(CollapseSlashes(s)) == NonSlashes(s)
    ensures ('/' in CollapseSlashes(s)) <==> ('/' in s)
    decreases |s|
  {
    if |s| == 0 {
    } else if |s| >= 2 && s[0] == '/' && s[1] == '/' {
      CollapseSlashesSpec(s[1..]);
      assert s[1] in s;
    } else {
      CollapseSlashesSpec(s[1..]);
      var rest := CollapseSlashes(s[1..]);
      var r := [s[0]] + rest;
      assert r == CollapseSlashes(s);
      assert r[1..] == rest;
      forall i | 0 <= i < |r| - 1
        ensures !(r[i] == '/' && r[i + 1] == '/')
      {
        if i > 0 {
          assert r[i] == rest[i - 1] && r[i + 1] == rest[i];
        }
      }
      assert '/' in s <==> s[0] == '/' || '/' in s[1..] by {
        assert s == [s[0]] + s[1..];
      }
      assert '/' in r <==> r[0] == '/' || '/' in rest;
    }
  }

  /** Collapsing works where the runs stand: a slash-free tail is kept as
      it is behind the collapsed front. */
  lemma {:induction false} CollapseSlashesAppend(a: string, b: string)
    requires '/' !in b
    ensures CollapseSlashes(a + b) == CollapseSlashes(a) + b
    decreases |a|
  {
    if |a| == 0 {
      assert a + b == b;
      CollapseSlashesIdempotent(b);
    } else {
      var s := a + b;
      assert s[1..] == a[1..] + b;
      CollapseSlashesAppend(a[1..], b);
      if |a| == 1 && |b| > 0 {
        assert s[1] == b[0] != '/';
      }
      if |a| >= 2 {
        assert s[1] == a[1];
      }
    }
  }

  /** A doubled slash collapses like a single one, wherever it stands. With
      `CollapseSlashesIdempotent` this fixes the collapse of every path. */
  lemma {:induction false} CollapseSlashesShrink(x: string, y: string)
    ensures CollapseSlashes(x + "//" + y) == CollapseSlashes(x + "/" + y)
    decreases |x|
  {
    var s, t := x + "//" + y, x + "/" + y;
    if |x| == 0 {
      assert s[1..] == t;
    } else {
      assert s[1..] == x[1..] + "//" + y;
      assert t[1..] == x[1..] + "/" + y;
      CollapseSlashesShrink(x[1..], y);
      if |x| == 1 {
        assert s[1] == '/' && t[1] == '/';
      } else {
        assert s[1] == x[1] && t[1] == x[1];
      }
    }
  }

  /** Collapsing twice is collapsing once. */
  lemma {:induction false} CollapseSlashesIdempotent(s: string)
    requires NoDoubleSlash(s)
    ensures CollapseSlashes(s) == s
    decreases |s|
  {
    if |s| > 0 {
      assert NoDoubleSlash(s[1..]) by {
        forall i | 0 <= i < |s[1..]| - 1
          ensures !(s[1..][i] == '/' && s[1..][i + 1] == '/')
        {
          assert s[1..][i] == s[i + 1] && s[1..][i + 1] == s[i + 2];
        }
      }
      CollapseSlashesIdempotent(s[1..]);
      assert [s[0]] + s[1..] == s;
    }
  }

  /** `os.path.basename(p)`: the longest suffix holding no slash. */
  function Basename(p: string): (r: string)
    ensures '/' !in r
    ensures |r| <= |p|
    decreases |p|
  {
    if |p| == 0 || p[|p| - 1] == '/' then []
    else Basename(p[..|p| - 1]) + [p[|p| - 1]]
  }

  /** The base name is a suffix of the path. */
  lemma {:induction false} BasenameSuffix(p: string)
    ensures Basename(p) == p[|p| - |Basename(p)|..]
    decreases |p|
  {
    if |p| > 0 && p[|p| - 1] != '/' {
      BasenameSuffix(p[..|p| - 1]);
      assert p[..|p| - 1][|p| - |Basename(p)|..] + [p[|p| - 1]] == p[|p| - |Basename(p)|..];
    }
  }

  /** A suffix of a slash-free suffix is a slash-free suffix. */
  lemma SuffixOfSuffix(p: string, b: string, r: string)
    requires |b| <= |p| && b == p[|p| - |b|..] && '/' !in b
    requires |r| <= |b| && r == b[|b| - |r|..]
    ensures r == p[|p| - |r|..] && '/' !in r
  {
    assert p[|p| - |b|..][|b| - |r|..] == p[|p| - |r|..];
    forall k | 0 <= k < |r| ensures r[k] != '/' {
      assert r[k] == b[|b| - |r| + k];
    }
  }

  /** The base name is a suffix of the path that is the whole path or is
      preceded by a slash, and a name without slashes joined to any directory
      is its own base name. */
  lemma {:induction false} BasenameSpec(p: string)
    ensures Basename(p) == p[|p| - |Basename(p)|..]
    ensures |Basename(p)| < |p| ==> p[|p| - |Basename(p)| - 1] == '/'
    ensures forall dir :: '/' !in p ==> Basename(dir + "/" + p) == p
    decreases |p|
  {
    if |p| > 0 && p[|p| - 1] != '/' {
      BasenameSpec(p[..|p| - 1]);
    }
    forall dir | '/' !in p
      ensures Basename(dir + "/" + p) == p
    {
      BasenameJoin(dir, p);
    }
  }

  lemma {:induction false} BasenameJoin(dir: string, name: string)
    requires '/' !in name
    ensures Basename(dir + "/" + name) == name
    decreases |name|
  {
    var q := dir + "/" + name;
    if |name| == 0 {
      assert q[|q| - 1] == '/';
    } else {
      var shorter := name[..|name| - 1];
      assert q[..|q| - 1] == dir + "/" + shorter;
      assert '/' !in shorter by {
        forall i | 0 <= i < |shorter| ensures shorter[i] != '/' {
          assert shorter[i] == name[i];
        }
      }
      BasenameJoin(dir, shorter);
      assert q[|q| - 1] == name[|name| - 1];
      assert shorter + [name[|name| - 1]] == name;
    }
  }

  /** `s.split('.')[0]`: the part of `s` before its first dot (all of `s`
      when there is none). */
  function FirstSegment(s: string): (r: string)
    ensures '.' !in r
    ensures |r| <= |s| && r == s[..|r|]
    ensures |r| < |s| ==> s[|r|] == '.'
    decreases |s|
  {
    if |s| == 0 || s[0] == '.' then []
    else [s[0]] + FirstSegment(s[1..])
  }

  /** Index of the last `c` in `s`, if any. */
  function LastIndexOf(s: string, c: char): (r: Option<nat>)
    ensures r.Some? ==> r.value < |s| && s[r.value] == c
                        && forall k :: r.value < k < |s| ==> s[k] != c
    ensures r.None? ==> c !in s
    decreases |s|
  {
    if |s| == 0 then None
    else if s[|s| - 1] == c then Some(|s| - 1)
    else LastIndexOf(s[..|s| - 1], c)
  }

  /** The extension part of a file name (no slash in it), as
      `os.path.splitext` computes it: from the last dot to the end, unless
      every character before that dot is a dot as well. */
  function NameExtension(name: string): (r: string)
    ensures r == [] || (r[0] == '.' && '.' !in r[1..])
    ensures |r| <= |name| && r == name[|name| - |r|..]
    ensures r != [] <==> exists d, k :: 0 <= k < d < |name| && name[d] == '.' && name[k] != '.'
  {
    match LastIndexOf(name, '.')
    case None => []
    case Some(d) =>
      if exists k :: 0 <= k < d && name[k] != '.' then
        var tail := name[d + 1..];
        assert '.' !in tail by {
          forall k | 0 <= k < |tail| ensures tail[k] != '.' {
            assert tail[k] == name[d + 1 + k];
          }
        }
        name[d..]
      else []
  }

  /** `os.path.splitext(p)[1]`: the extension of the last path component. */
  function Extension(p: string): (r: string)
    ensures r == [] || (r[0] == '.' && '.' !in r[1..])
    ensures var b := Basename(p);
            r != [] <==> exists d, k :: 0 <= k < d < |b| && b[d] == '.' && b[k] != '.'
  {
    NameExtension(Basename(p))
  }

  /** The extension is empty or a dot followed by no dot and no slash, and
      it is a suffix of the path. */
  lemma ExtensionSpec(p: string)
    ensures var r := Extension(p);
            && (r == [] || (r[0] == '.' && '.' !in r[1..] && '/' !in r))
            && |r| <= |p| && r == p[|p| - |r|..]
  {
    var b := Basename(p);
    var r := NameExtension(b);
    assert Extension(p) == r;
    BasenameSuffix(p);
    SuffixOfSuffix(p, b, r);
  }

  /** A file named `stem + ext` in any directory has extension `ext` when
      `ext` is a dot followed by no dot, and the stem holds a character other
      than a dot. */
  lemma ExtensionOfJoin(dir: string, stem: string, ext: string)
    requires '/' !in stem && '/' !in ext
    requires |ext| > 0 && ext[0] == '.' && '.' !in ext[1..]
    requires exists k :: 0 <= k < |stem| && stem[k] != '.'
    ensures Extension(dir + "/" + stem + ext) == ext
  {
    var name := stem + ext;
    assert '/' !in name;
    assert dir + "/" + stem + ext == dir + "/" + name;
    BasenameJoin(dir, name);
    var d := LastIndexOf(name, '.');
    assert name[|stem|] == '.';
    assert d.Some? && d.value == |stem| by {
      forall k | |stem| < k < |name| ensures name[k] != '.' {
        assert name[k] == ext[1..][k - |stem| - 1];
      }
    }
    var k :| 0 <= k < |stem| && stem[k] != '.';
    assert name[k] != '.';
    assert name[|stem|..] == ext;
  }

  /** A slash-free ending of a path is an ending of its base name. */
  lemma {:induction false} BasenameEndsWith(p: string, suf: string)
    requires EndsWith(p, suf) && '/' !in suf
    ensures EndsWith(Basename(p), suf)
    decreases |p|
  {
    if |suf| > 0 {
      var c := p[|p| - 1];
      assert c == suf[|suf| - 1];
      var q := p[..|p| - 1];
      var front := suf[..|suf| - 1];
      assert q[|q| - |front|..] == p[|p| - |suf|..][..|front|];
      BasenameEndsWith(q, front);
      var b := Basename(q);
      assert Basename(p) == b + [c];
      assert (b + [c])[|b + [c]| - |suf|..] == b[|b| - |front|..] + [c];
      assert suf == front + [c];
    }
  }

  /** A path ending in `stem + ext`, where the stem holds no slash and not
      only dots, has extension `ext`. */
  lemma ExtensionOfEnding(p: string, stem: string, ext: string)
    requires EndsWith(p, stem + ext)
    requires '/' !in stem && '/' !in ext
    requires |ext| > 0 && ext[0] == '.' && '.' !in ext[1..]
    requires exists k :: 0 <= k < |stem| && stem[k] != '.'
    ensures Extension(p) == ext
  {
    var name := stem + ext;
    assert '/' !in name;
    BasenameEndsWith(p, name);
    var b := Basename(p);
    var o := |b| - |name|;
    assert forall i | 0 <= i < |name| :: b[o + i] == name[i];
    var d := LastIndexOf(b, '.');
    assert b[o + |stem|] == name[|stem|] == '.';
    assert d.Some? && d.value == o + |stem| by {
      forall k | o + |stem| < k < |b| ensures b[k] != '.' {
        assert b[k] == name[k - o] == ext[1..][k - o - |stem| - 1];
      }
    }
    var k :| 0 <= k < |stem| && stem[k] != '.';
    assert b[o + k] == name[k] == stem[k];
    assert b[o + |stem|..] == ext;
    assert Extension(p) == NameExtension(b);
  }

  /** `re.split(":\\s+", s)`: the pieces between the matches of a colon
      followed by a maximal run of whitespace. */
  function SplitColonSpace(s: string): (pieces: seq<string>)
    ensures |pieces| >= 1
    ensures |s| > 0 && !ColonSpaceAt(s, 0) ==> |pieces[0]| > 0 && pieces[0][0] == s[0]
    decreases |s|
  {
    if |s| == 0 then [[]]
    else if ColonSpaceAt(s, 0) then [[]] + SplitColonSpace(StripLeft(s[1..]))
    else
      var rest := SplitColonSpace(s[1..]);
      [[s[0]] + rest[0]] + rest[1..]
  }

  /** A separator (`:` then whitespace) starts at position `i`. */
  predicate ColonSpaceAt(s: string, i: int) {
    0 <= i < |s| - 1 && s[i] == ':' && IsSpace(s[i + 1])
  }

  predicate HasColonSpace(s: string) {
    exists i :: 0 <= i < |s| - 1 && ColonSpaceAt(s, i)
  }

  /** A string that does not start with a separator has one exactly when
      its tail has one. */
  lemma HasColonSpaceTail(s: string)
    requires |s| > 0 && !ColonSpaceAt(s, 0)
    ensures HasColonSpace(s) <==> HasColonSpace(s[1..])
  {
    if HasColonSpace(s) {
      var i :| 0 <= i < |s| - 1 && ColonSpaceAt(s, i);
      assert ColonSpaceAt(s[1..], i - 1);
    }
    if HasColonSpace(s[1..]) {
      var i :| 0 <= i < |s[1..]| - 1 && ColonSpaceAt(s[1..], i);
      assert ColonSpaceAt(s, i + 1);
    }
  }

  /** Putting a character in front of a separator-free piece makes no
      separator unless the character is a colon and the piece starts with
      whitespace. */
  lemma ConsNoColonSpace(c: char, q: string)
    requires !HasColonSpace(q)
    requires !(c == ':' && |q| > 0 && IsSpace(q[0]))
    ensures !HasColonSpace([c] + q)
  {
    var p := [c] + q;
    if HasColonSpace(p) {
      var i :| 0 <= i < |p| - 1 && ColonSpaceAt(p, i);
      assert ColonSpaceAt(q, i - 1);
    }
  }

  /** An empty piece in front of separator-free pieces adds no separator. */
  lemma PiecesAfterSeparator(pieces: seq<string>, tail: seq<string>)
    requires pieces == [[]] + tail
    requires forall k :: 0 <= k < |tail| ==> !HasColonSpace(tail[k])
    ensures forall k :: 0 <= k < |pieces| ==> !HasColonSpace(pieces[k])
  {
    forall k | 0 < k < |pieces| ensures !HasColonSpace(pieces[k]) {
      assert pieces[k] == tail[k - 1];
    }
  }

  /** Extending the first of separator-free pieces without making a
      separator keeps them all separator-free. */
  lemma PiecesCons(pieces: seq<string>, rest: seq<string>, c: char)
    requires |rest| >= 1 && pieces == [[c] + rest[0]] + rest[1..]
    requires forall k :: 0 <= k < |rest| ==> !HasColonSpace(rest[k])
    requires !HasColonSpace([c] + rest[0])
    ensures forall k :: 0 <= k < |pieces| ==> !HasColonSpace(pieces[k])
  {
    forall k | 0 < k < |pieces| ensures !HasColonSpace(pieces[k]) {
      assert pieces[k] == rest[k];
    }
  }

  /** The split yields more than one piece exactly when a separator occurs,
      and no piece contains a separator. */
  lemma {:induction false} SplitColonSpaceSpec(s: string)
    ensures |SplitColonSpace(s)| > 1 <==> HasColonSpace(s)
    ensures forall k :: 0 <= k < |SplitColonSpace(s)| ==> !HasColonSpace(SplitColonSpace(s)[k])
    decreases |s|
  {
    var pieces := SplitColonSpace(s);
    if |s| == 0 {
    } else if ColonSpaceAt(s, 0) {
      var t := StripLeft(s[1..]);
      SplitColonSpaceSpec(t);
      assert HasColonSpace(s);
      PiecesAfterSeparator(pieces, SplitColonSpace(t));
    } else {
      SplitColonSpaceSpec(s[1..]);
      HasColonSpaceTail(s);
      var rest := SplitColonSpace(s[1..]);
      if s[0] == ':' && |rest[0]| > 0 {
        // the first piece of the tail starts with the tail's first character
        assert rest[0][0] == s[1];
      }
      ConsNoColonSpace(s[0], rest[0]);
      PiecesCons(pieces, rest, s[0]);
    }
  }

  /** Leading whitespace in front of a string that starts with no
      whitespace is exactly what stripping on the left removes. */
  lemma {:induction false} StripLeftSkips(ws: string, t: string)
    requires forall i :: 0 <= i < |ws| ==> IsSpace(ws[i])
    requires t == [] || !IsSpace(t[0])
    ensures StripLeft(ws + t) == t
    decreases |ws|
  {
    if |ws| > 0 {
      assert (ws + t)[1..] == ws[1..] + t;
      StripLeftSkips(ws[1..], t);
    } else {
      assert ws + t == t;
    }
  }

  /** Trailing whitespace behind a string that ends with no whitespace is
      exactly what stripping on the right removes. */
  lemma {:induction false} StripRightSkips(t: string, ws: string)
    requires forall i :: 0 <= i < |ws| ==> IsSpace(ws[i])
    requires t == [] || !IsSpace(t[|t| - 1])
    ensures StripRight(t + ws) == t
    decreases |ws|
  {
    if |ws| > 0 {
      assert (t + ws)[..|t + ws| - 1] == t + ws[..|ws| - 1];
      StripRightSkips(t, ws[..|ws| - 1]);
    } else {
      assert t + ws == t;
    }
  }

  /** Deleting quotes and commas works piece by piece. */
  lemma {:induction false} DropQuotesAndCommasAppend(a: string, b: string)
    ensures DropQuotesAndCommas(a + b) == DropQuotesAndCommas(a) + DropQuotesAndCommas(b)
    decreases |a|
  {
    if |a| > 0 {
      assert (a + b)[1..] == a[1..] + b;
      DropQuotesAndCommasAppend(a[1..], b);
    } else {
      assert a + b == b;
    }
  }

  /** A string without a separator is not split. */
  lemma {:induction false} SplitColonSpaceNone(s: string)
    requires !HasColonSpace(s)
    ensures SplitColonSpace(s) == [s]
    decreases |s|
  {
    if |s| > 0 {
      assert !ColonSpaceAt(s, 0);
      assert !HasColonSpace(s[1..]) by {
        if HasColonSpace(s[1..]) {
          var i :| 0 <= i < |s[1..]| - 1 && ColonSpaceAt(s[1..], i);
          assert ColonSpaceAt(s, i + 1);
        }
      }
      SplitColonSpaceNone(s[1..]);
      assert [s[0]] + s[1..] == s;
    }
  }

  /** `key: rest`, with no colon in the key and a value that starts with no
      whitespace and holds no separator, splits into the key and the value. */
  lemma {:induction false} SplitColonSpacePair(key: string, rest: string)
    requires ':' !in key
    requires |rest| > 0 && !IsSpace(rest[0]) && !HasColonSpace(rest)
    ensures SplitColonSpace(key + ": " + rest) == [key, rest]
    decreases |key|
  {
    var s := key + ": " + rest;
    if |key| == 0 {
      assert s == ": " + rest;
      assert ColonSpaceAt(s, 0);
      assert s[1..] == " " + rest;
      StripLeftSkips(" ", rest);
      SplitColonSpaceNone(rest);
    } else {
      assert s[0] == key[0];
      assert !ColonSpaceAt(s, 0);
      assert s[1..] == key[1..] + ": " + rest;
      SplitColonSpacePair(key[1..], rest);
      assert [key[0]] + key[1..] == key;
    }
  }

  /** `re.sub("/$", "", s)`: a slash that ends the string, or stands just
      before a final newline (where Python's `$` also matches), is removed. */
  function DropTrailingSlash(s: string): (r: string)
    ensures |s| - 1 <= |r| <= |s|
    ensures |r| < |s| <==> EndsWith(s, "/") || EndsWith(s, "/\n")
    ensures |r| < |s| ==> exists i :: 0 <= i < |s| && s[i] == '/' && r == s[..i] + s[i + 1..]
    ensures |r| == |s| ==> r == s
    ensures EndsWith(s, "/") ==> r == s[..|s| - 1]
    ensures !EndsWith(s, "/") && EndsWith(s, "/\n") ==> r == s[..|s| - 2] + "\n"
  {
    if |s| >= 1 && s[|s| - 1] == '/' then
      assert s[..|s| - 1] == s[..|s| - 1] + s[|s|..];
      s[..|s| - 1]
    else if |s| >= 2 && s[|s| - 2] == '/' && s[|s| - 1] == '\n' then
      assert s[|s| - 1..] == "\n";
      s[..|s| - 2] + "\n"
    else s
  }
}
