/** The part of Node's POSIX `path` module that the server uses: resolving an
    absolute path (dot-segment normalisation) and taking its extension. */
module Paths {
  import opened Strings

  /** A segment of a normalised path: not empty, not a dot segment, no separator. */
  predicate IsPlainSegment(s: string) {
    s != "" && s != "." && s != ".." && '/' !in s
  }

  predicate AllPlain(segs: seq<string>) {
    forall i :: 0 <= i < |segs| ==> IsPlainSegment(segs[i])
  }

  predicate NoSeparators(segs: seq<string>) {
    forall i :: 0 <= i < |segs| ==> '/' !in segs[i]
  }

  /** What one raw segment does to the directory stack of an absolute path:
      "" and "." are dropped, ".." removes the last directory (and is dropped at
      the root), anything else is pushed. */
  function Apply(stack: seq<string>, s: string): (r: seq<string>)
    requires AllPlain(stack) && '/' !in s
    ensures AllPlain(r)
    ensures s == "" || s == "." ==> r == stack
    ensures s == ".." ==> r == if |stack| == 0 then [] else stack[..|stack| - 1]
    ensures IsPlainSegment(s) ==> r == stack + [s]
  {
    if s == "" || s == "." then stack
    else if s == ".." then (if |stack| == 0 then [] else stack[..|stack| - 1])
    else stack + [s]
  }

  /** The stack after processing `segs` from left to right. */
  function Walk(stack: seq<string>, segs: seq<string>): (r: seq<string>)
    requires AllPlain(stack) && NoSeparators(segs)
    ensures AllPlain(r)
    decreases |segs|
  {
    if |segs| == 0 then stack else Walk(Apply(stack, segs[0]), segs[1..])
  }

  /** Walking a concatenation is walking the first part and then the second. */
  lemma {:induction false} WalkAppend(stack: seq<string>, a: seq<string>, b: seq<string>)
    requires AllPlain(stack) && NoSeparators(a) && NoSeparators(b)
    ensures NoSeparators(a + b)
    ensures Walk(stack, a + b) == Walk(Walk(stack, a), b)
    decreases |a|
  {
    assert NoSeparators(a + b) by {
      forall i | 0 <= i < |a + b| ensures '/' !in (a + b)[i] {
        if i < |a| { assert (a + b)[i] == a[i]; } else { assert (a + b)[i] == b[i - |a|]; }
      }
    }
    if |a| == 0 {
      assert a + b == b;
    } else {
      assert (a + b)[0] == a[0];
      assert (a + b)[1..] == a[1..] + b;
      assert NoSeparators(a[1..]) by { forall i | 0 <= i < |a| - 1 ensures '/' !in a[1..][i] { assert a[1..][i] == a[i + 1]; } }
      WalkAppend(Apply(stack, a[0]), a[1..], b);
      assert Walk(stack, a) == Walk(Apply(stack, a[0]), a[1..]);
      assert Walk(stack, a + b) == Walk(Apply(stack, a[0]), a[1..] + b);
    }
  }

  /** Walking segments that are already plain pushes them all. */
  lemma {:induction false} WalkPlain(stack: seq<string>, segs: seq<string>)
    requires AllPlain(stack) && AllPlain(segs)
    ensures NoSeparators(segs)
    ensures Walk(stack, segs) == stack + segs
    decreases |segs|
  {
    if |segs| > 0 {
      WalkPlain(stack + [segs[0]], segs[1..]);
      assert stack + [segs[0]] + segs[1..] == stack + segs;
    }
  }

  /** A character of a segment is a character of the rendered path. */
  lemma {:induction false} InRender(segs: seq<string>, i: nat, c: char)
    requires i < |segs| && c in segs[i]
    ensures c in Render(segs)
  {
    InJoin(segs, '/', i, c);
  }

  lemma {:induction false} InJoin(parts: seq<string>, sep: char, i: nat, c: char)
    requires i < |parts| && c in parts[i]
    ensures c in Join(parts, sep)
    decreases |parts|
  {
    if |parts| > 1 {
      assert Join(parts, sep) == parts[0] + [sep] + Join(parts[1..], sep);
      if i > 0 {
        assert parts[1..][i - 1] == parts[i];
        InJoin(parts[1..], sep, i - 1, c);
      }
    }
  }

  /** The segments of `path.resolve(p)` for an absolute `p`. */
  function Segments(p: string): (r: seq<string>)
    ensures AllPlain(r)
  {
    Walk([], Split(p, '/'))
  }

  /** The absolute path written from its segments, as Node prints it: a leading
      separator and no trailing one. */
  function Render(segs: seq<string>): string {
    "/" + Join(segs, '/')
  }

  /** `path.resolve(p)` for an absolute path `p` (one that starts with "/"); the
      current directory plays no part for such a path. */
  function Resolve(p: string): (r: string)
    requires StartsWith(p, "/")
    ensures StartsWith(r, "/")
  {
    Render(Segments(p))
  }

  /** `path.resolve(path.join(dir, name))`: the segments of `name` are walked
      from where those of `dir` leave off. */
  lemma {:induction false} ResolveJoin(dir: string, name: string)
    ensures Segments(dir + "/" + name) == Walk(Segments(dir), Split(name, '/'))
  {
    SplitConcat(dir, name, '/');
    WalkAppend([], Split(dir, '/'), Split(name, '/'));
  }

  lemma {:induction false} SplitConcat(a: string, b: string, sep: char)
    ensures Split(a + [sep] + b, sep) == Split(a, sep) + Split(b, sep)
  {
    if |a| == 0 {
      assert a + [sep] + b == [sep] + b;
      SplitCons(sep, b, sep);
    } else {
      SplitConcat(a[1..], b, sep);
      assert a + [sep] + b == [a[0]] + (a[1..] + [sep] + b);
      assert a == [a[0]] + a[1..];
      SplitConcatStep(a[0], a[1..], b, sep);
    }
  }

  lemma SplitConcatStep(x: char, a: string, b: string, sep: char)
    requires Split(a + [sep] + b, sep) == Split(a, sep) + Split(b, sep)
    ensures Split([x] + (a + [sep] + b), sep) == Split([x] + a, sep) + Split(b, sep)
  {
    var t := a + [sep] + b;
    var ra := Split(a, sep);
    var rb := Split(b, sep);
    if x == sep {
      assert Split([x] + t, sep) == [""] + Split(t, sep);
      assert Split([x] + a, sep) == [""] + ra;
      assert [""] + (ra + rb) == ([""] + ra) + rb;
    } else {
      assert Split([x] + t, sep) == [[x] + Split(t, sep)[0]] + Split(t, sep)[1..];
      assert Split([x] + a, sep) == [[x] + ra[0]] + ra[1..];
      ExtendFirst([x], ra, rb);
    }
  }

  /** Prepending to the first piece commutes with appending more pieces. */
  lemma ExtendFirst(x: string, ra: seq<string>, rb: seq<string>)
    requires |ra| >= 1
    ensures [x + (ra + rb)[0]] + (ra + rb)[1..] == ([x + ra[0]] + ra[1..]) + rb
  {
    assert (ra + rb)[0] == ra[0];
    assert (ra + rb)[1..] == ra[1..] + rb;
  }

  lemma SplitCons(c: char, t: string, sep: char)
    ensures Split([c] + t, sep) == if c == sep then [""] + Split(t, sep)
                                   else [[c] + Split(t, sep)[0]] + Split(t, sep)[1..]
  {
  }

  lemma {:induction false} PrefixCancel(p: string, x: string, y: string)
    ensures StartsWith(p + x, p + y) <==> StartsWith(x, y)
  {
    if StartsWith(x, y) {
      assert (p + x)[..|p + y|] == p + x[..|y|];
    }
    if StartsWith(p + x, p + y) {
      assert (p + x)[..|p + y|] == p + x[..|y|];
      assert x[..|y|] == (p + x)[..|p + y|][|p|..];
    }
  }

  /** Two separator-free heads followed by a separator agree when one is a prefix of the other. */
  lemma SameHead(a: string, x: string, b: string)
    requires '/' !in a && '/' !in b
    requires StartsWith(a + "/" + x, b + "/")
    ensures a == b
  {
    var w := a + "/" + x;
    assert w[..|b| + 1] == b + "/";
    assert |a| >= |b| by {
      if |a| < |b| {
        assert b[..|a| + 1] == w[..|a| + 1] == a + "/";
        NoSlashPrefix(b, a);
      }
    }
    assert |a| <= |b| by {
      if |a| > |b| {
        assert a[..|b| + 1] == w[..|b| + 1];
        NoSlashPrefix(a, b);
      }
    }
    assert w[..|b|] == a;
    assert (b + "/")[..|b|] == b;
  }

  /** A separator-free string does not start with a string that has one. */
  lemma NoSlashPrefix(a: string, b: string)
    requires '/' !in a
    ensures !StartsWith(a, b + "/")
  {
    if |b| < |a| {
      assert a[|b|] in a;
      assert a[|b|] != '/';
      assert (b + "/")[|b|] == '/';
    }
  }

  lemma {:induction false} JoinPrefix(d: seq<string>, s: seq<string>)
    requires |d| >= 1 && AllPlain(d) && AllPlain(s)
    ensures StartsWith(Join(s, '/'), Join(d, '/') + "/") <==> |s| > |d| && s[..|d|] == d
    decreases |d|
  {
    var jd := Join(d, '/');
    if |s| == 0 {
      assert !StartsWith("", jd + "/");
    } else if |s| == 1 {
      assert Join(s, '/') == s[0];
      NoSlashPrefix(s[0], jd);
    } else {
      var js := Join(s, '/');
      assert js == s[0] + "/" + Join(s[1..], '/');
      if |d| == 1 {
        assert jd == d[0];
        if StartsWith(js, jd + "/") { SameHead(s[0], Join(s[1..], '/'), d[0]); }
        if s[0] == d[0] { assert js[..|jd + "/"|] == jd + "/"; }
      } else {
        assert jd + "/" == d[0] + "/" + (Join(d[1..], '/') + "/");
        assert js == s[0] + "/" + Join(s[1..], '/');
        if StartsWith(js, jd + "/") {
          assert StartsWith(js, d[0] + "/") by {
            assert js[..|d[0] + "/"|] == (jd + "/")[..|d[0] + "/"|];
          }
          SameHead(s[0], Join(s[1..], '/'), d[0]);
        }
        if s[0] == d[0] {
          PrefixCancel(s[0] + "/", Join(s[1..], '/'), Join(d[1..], '/') + "/");
          JoinPrefix(d[1..], s[1..]);
          assert (|s| - 1 > |d| - 1 && s[1..][..|d| - 1] == d[1..]) <==> (|s| > |d| && s[..|d|] == d) by {
            if |s| > |d| {
              assert s[..|d|] == [s[0]] + s[1..][..|d| - 1];
              assert d == [d[0]] + d[1..];
              assert s[1..][..|d| - 1] == s[..|d|][1..];
            }
          }
          assert s[0] + "/" + Join(s[1..], '/') == (s[0] + "/") + Join(s[1..], '/');
          assert jd + "/" == (s[0] + "/") + (Join(d[1..], '/') + "/");
        } else {
          if StartsWith(js, jd + "/") { assert false; }
        }
      }
    }
  }

  /** The containment test of the server, `resolved.startsWith(root + "/")`, on
      rendered paths holds exactly when the path has the directory's segments as
      a proper prefix; a root directory with no segments contains nothing, since
      its prefix is "//". */
  lemma RenderPrefix(d: seq<string>, s: seq<string>)
    requires AllPlain(d) && AllPlain(s)
    ensures StartsWith(Render(s), Render(d) + "/") <==> |d| >= 1 && |s| > |d| && s[..|d|] == d
  {
    assert Render(d) + "/" == "/" + (Join(d, '/') + "/");
    PrefixCancel("/", Join(s, '/'), Join(d, '/') + "/");
    if |d| == 0 {
      assert Join(d, '/') + "/" == "/";
      if |s| >= 1 {
        assert Join(s, '/')[0] == s[0][0] by {
          if |s| > 1 { assert Join(s, '/') == s[0] + ("/" + Join(s[1..], '/')); }
        }
        assert s[0][0] in s[0];
      }
    } else {
      JoinPrefix(d, s);
    }
  }

  /** `s.lastIndexOf(c)` for a one-character needle. */
  function LastIndexOf(s: string, c: char): (r: int)
    ensures -1 <= r < |s|
    ensures r == -1 <==> c !in s
    ensures r >= 0 ==> s[r] == c && c !in s[r + 1..]
  {
    if |s| == 0 then -1
    else if s[|s| - 1] == c then |s| - 1
    else
      var k := LastIndexOf(s[..|s| - 1], c);
      assert k >= 0 ==> s[k + 1..] == s[..|s| - 1][k + 1..] + [s[|s| - 1]];
      k
  }

  /** `lastIndexOf` finds the occurrence after which the character does not occur. */
  lemma LastIndexOfIs(s: string, c: char, k: nat)
    requires k < |s| && s[k] == c && c !in s[k + 1..]
    ensures LastIndexOf(s, c) == k
  {
  }

  /** The last segment of a path: what follows its last separator. */
  function Basename(p: string): (r: string)
    ensures '/' !in r
  {
    var k := LastIndexOf(p, '/');
    p[k + 1..]
  }

  /** The last dot of a segment is at most its first character exactly when
      no dot follows the first character. */
  lemma LastDotOpens(b: string)
    ensures LastIndexOf(b, '.') <= 0 <==> forall j :: 0 < j < |b| ==> b[j] != '.'
  {
    var d := LastIndexOf(b, '.');
    if d <= 0 {
      forall j | 0 < j < |b| ensures b[j] != '.' {
        assert b[j] == b[d + 1..][j - d - 1];
      }
    }
  }

  /** `path.extname(p)` for a path without a trailing separator whose last
      segment is not "..", which is what `path.resolve` yields: from the last dot
      of the last segment, or empty when there is none or it opens the segment. */
  function Extname(p: string): (r: string)
    ensures r == [] || (r[0] == '.' && '.' !in r[1..] && '/' !in r)
    ensures r != [] ==> |r| < |Basename(p)| && r == Basename(p)[|Basename(p)| - |r|..]
    ensures r == [] <==> forall j :: 0 < j < |Basename(p)| ==> Basename(p)[j] != '.'
  {
    var b := Basename(p);
    var d := LastIndexOf(b, '.');
    LastDotOpens(b);
    if d <= 0 then "" else
      var r := b[d..];
      assert forall j :: 0 <= j < |r| ==> r[j] == b[d + j];
      assert r[1..] == b[d + 1..];
      r
  }

  /** The last segment of `dir + "/" + name` is `name`. */
  lemma BasenameOfJoin(dir: string, name: string)
    requires '/' !in name
    ensures Basename(dir + "/" + name) == name
  {
    var p := dir + "/" + name;
    assert p[|dir| + 1..] == name;
    LastIndexOfIs(p, '/', |dir|);
  }

  /** A file `stem + ext` in any directory has the extension `ext` when `ext`
      is a dot followed by dot-free text and `stem` is not empty. */
  lemma ExtnameOfFile(dir: string, stem: string, ext: string)
    requires '/' !in stem && '/' !in ext && |stem| > 0 && stem + ext != ".."
    requires |ext| > 0 && ext[0] == '.' && '.' !in ext[1..]
    ensures Extname(dir + "/" + stem + ext) == ext
  {
    var name := stem + ext;
    assert dir + "/" + stem + ext == dir + "/" + name;
    BasenameOfJoin(dir, name);
    assert name[|stem| + 1..] == ext[1..];
    LastIndexOfIs(name, '.', |stem|);
    assert name[|stem|..] == ext;
  }
}
