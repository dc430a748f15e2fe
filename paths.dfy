/**
 * How build.py treats one matched file: a `.jsonnet` template is compiled,
 * anything else is copied, and the output path mirrors the source path with
 * `out` for `src` and `.json` for `.jsonnet`.
 */
module Paths {
  import opened PyStr

  /** A template is compiled; every other matched file is copied. */
  predicate IsTemplate(path: string)
  {
    EndsWith(path, ".jsonnet")
  }

  /** The path a matched file is written to. */
  function OutPath(path: string): string
  {
    var out := ReplaceFirst(path, "src", "out");
    if IsTemplate(path) then DropLast(out, 3) else out
  }

  /** A path the traversal of `src/**/*.json*` can yield: it begins with the directory `src/`. */
  predicate UnderSrc(path: string)
  {
    |path| >= 4 && path[..4] == "src/"
  }

  /** A path under `src/` is `src` followed by a tail that starts with `/`. */
  lemma SrcSplit(path: string)
    requires UnderSrc(path)
    ensures path == "src" + path[3..] && path[3..][0] == '/'
  {
    assert path[..3] == path[..4][..3] == "src";
    assert path == path[..3] + path[3..];
  }

  /** A template under `src/` is long enough that its `.jsonnet` lies after the `src/`. */
  lemma TemplateLength(path: string)
    requires UnderSrc(path) && IsTemplate(path)
    ensures |path| >= 12
  {
    assert path[|path| - 8] == '.';
    assert forall k :: 0 <= k < 4 ==> path[k] == "src/"[k];
  }

  /**
   * `src` + rest goes to `out` + rest, except that a template also loses its
   * final `net`, so that its output ends in `.json` and is no template itself.
   * Either way the output lies under `out/`.
   */
  lemma OutPathMirrors(path: string)
    requires UnderSrc(path)
    ensures !IsTemplate(path) ==> OutPath(path) == "out" + path[3..]
    ensures IsTemplate(path) ==> OutPath(path) + "net" == "out" + path[3..]
    ensures IsTemplate(path) ==> EndsWith(OutPath(path), ".json") && !IsTemplate(OutPath(path))
    ensures |OutPath(path)| >= 4 && OutPath(path)[..4] == "out/"
  {
    SrcSplit(path);
    ReplaceFirstAtFront("src", path[3..], "out");
    var t := "out" + path[3..];
    assert t[..4] == "out/";
    if IsTemplate(path) {
      TemplateLength(path);
      var o := OutPath(path);
      assert o == t[..|t| - 3];
      assert o[..4] == t[..4];
      assert t[|t| - 8..] == path[|path| - 8..] == ".jsonnet";
      assert o[|o| - 5..] == t[|t| - 8..|t| - 3] == ".json";
      assert o[|o| - 1] == 'n';
    }
  }

  /** Equal outputs of two templates, or of two copied files, come from equal sources. */
  lemma SameKindNoCollision(p: string, q: string)
    requires UnderSrc(p) && UnderSrc(q) && IsTemplate(p) == IsTemplate(q)
    requires OutPath(p) == OutPath(q)
    ensures p == q
  {
    OutPathMirrors(p);
    OutPathMirrors(q);
    SrcSplit(p);
    SrcSplit(q);
    var a, b := "out" + p[3..], "out" + q[3..];
    assert a == b;
    assert p[3..] == a[3..] && q[3..] == b[3..];
  }

  /** A template and a copied file share an output exactly when the template is the file's name plus `net`. */
  lemma MixedKindCollision(p: string, q: string)
    requires UnderSrc(p) && UnderSrc(q) && IsTemplate(p) && !IsTemplate(q)
    ensures OutPath(p) == OutPath(q) <==> p == q + "net"
  {
    OutPathMirrors(p);
    OutPathMirrors(q);
    SrcSplit(p);
    SrcSplit(q);
    if OutPath(p) == OutPath(q) {
      MirrorTails(p[3..], q[3..]);
    }
    if p == q + "net" {
      NetTails(OutPath(p), OutPath(q));
    }
  }

  /** Below the `out` prefix, a template's output plus `net` is the template's tail. */
  lemma MirrorTails(tp: string, tq: string)
    requires ("out" + tq) + "net" == "out" + tp
    ensures "src" + tp == ("src" + tq) + "net"
  {
    assert tp == ("out" + tp)[3..] == (("out" + tq) + "net")[3..] == tq + "net";
  }

  /** Two strings that become equal once `net` is appended were equal. */
  lemma NetTails(a: string, b: string)
    requires a + "net" == b + "net"
    ensures a == b
  {
    assert a == (a + "net")[..|a|] == (b + "net")[..|b|] == b;
  }

  /** Adding `net` to a template never gives another template's name. */
  lemma TemplatePlusNet(q: string)
    requires IsTemplate(q + "net")
    ensures !IsTemplate(q)
  {
    var p := q + "net";
    assert q[|q| - 1] == p[|p| - 4] == 'n';
  }

  /**
   * Two different source paths share an output path exactly when one is the
   * other with `net` added, that is `x.json` next to `x.jsonnet`.
   */
  lemma OutPathCollision(p: string, q: string)
    requires UnderSrc(p) && UnderSrc(q) && p != q
    ensures OutPath(p) == OutPath(q) <==> (IsTemplate(p) && p == q + "net") || (IsTemplate(q) && q == p + "net")
  {
    if IsTemplate(p) == IsTemplate(q) {
      if OutPath(p) == OutPath(q) {
        SameKindNoCollision(p, q);
      }
      if IsTemplate(p) && p == q + "net" {
        TemplatePlusNet(q);
      }
      if IsTemplate(q) && q == p + "net" {
        TemplatePlusNet(p);
      }
    } else if IsTemplate(p) {
      MixedKindCollision(p, q);
    } else {
      MixedKindCollision(q, p);
    }
  }

  /** `x.json` and `x.jsonnet` side by side are both written to `out/x.json`. */
  lemma JsonNextToJsonnet(q: string)
    requires UnderSrc(q) && EndsWith(q, ".json")
    ensures OutPath(q + "net") == OutPath(q) == "out" + q[3..]
  {
    var p := q + "net";
    assert p[..|q|] == q;
    assert IsTemplate(p) by {
      assert p[|p| - 8..] == q[|q| - 5..] + "net";
    }
    TemplatePlusNet(q);
    OutPathMirrors(q);
    MixedKindCollision(p, q);
  }
}
