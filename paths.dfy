/**
 * Node's POSIX `path.normalize`, restricted to what the version-file list needs:
 * repeated `/` collapse, `.` segments disappear, a leading `/` and a trailing `/`
 * are kept, and an empty result becomes `.`. A `..` segment is kept as an
 * ordinary name.
 */
module Paths {
  import opened Strings

  /** A segment that survives normalisation: not empty and not `.`. */
  predicate IsKept(seg: string) {
    seg != "" && seg != "."
  }

  /** The segments of a path that survive normalisation, in order. */
  function KeepSegments(segs: seq<string>): (r: seq<string>)
    ensures forall k | 0 <= k < |r| :: IsKept(r[k])
    ensures forall x | x in r :: x in segs
    ensures |r| <= |segs|
  {
    if segs == [] then []
    else (if IsKept(segs[0]) then [segs[0]] else []) + KeepSegments(segs[1..])
  }

  /** The kept segments of `p`, joined by single `/`s. */
  function Body(p: string): string
  {
    Join(KeepSegments(Split(p, '/')), '/')
  }

  /** The normalised path from its body and whether it was absolute or ended in `/`. */
  function Assemble(absolute: bool, trailing: bool, body: string): (r: string)
    ensures r != []
  {
    if body == [] then (if absolute then "/" else if trailing then "./" else ".")
    else (if absolute then "/" else "") + body + (if trailing then "/" else "")
  }

  /** `path.normalize(p)`: never empty; an empty path becomes `.`. */
  function Normalize(p: string): (r: string)
    ensures r != []
    ensures p == [] ==> r == "."
  {
    if p == [] then "." else Assemble(p[0] == '/', p[|p| - 1] == '/', Body(p))
  }

  /** Keeping segments works piecewise. */
  lemma {:induction false} KeepSegmentsConcat(a: seq<string>, b: seq<string>)
    ensures KeepSegments(a + b) == KeepSegments(a) + KeepSegments(b)
    decreases |a|
  {
    if a == [] {
      assert a + b == b;
    } else {
      var c := a + b;
      assert c[0] == a[0] && c[1..] == a[1..] + b;
      KeepSegmentsConcat(a[1..], b);
      AppendAssoc(if IsKept(a[0]) then [a[0]] else [], KeepSegments(a[1..]), KeepSegments(b));
    }
  }

  /** Segments that all survive are kept as they are. */
  lemma {:induction false} KeepSegmentsOfKept(segs: seq<string>)
    requires forall k | 0 <= k < |segs| :: IsKept(segs[k])
    ensures KeepSegments(segs) == segs
    decreases |segs|
  {
    if segs != [] {
      KeepSegmentsOfKept(segs[1..]);
    }
  }

  /** A path made of clean segments: none is empty or `.`, none holds `/`. */
  predicate CleanSegments(segs: seq<string>) {
    forall k | 0 <= k < |segs| :: IsKept(segs[k]) && '/' !in segs[k]
  }

  /** The first character of a join of non-empty pieces is the first piece's. */
  lemma JoinFirstChar(segs: seq<string>, sep: char)
    requires |segs| >= 1 && segs[0] != ""
    ensures Join(segs, sep) != [] && Join(segs, sep)[0] == segs[0][0]
  {
  }

  /** The last character of a join of non-empty pieces is the last piece's. */
  lemma {:induction false} JoinLastChar(segs: seq<string>, sep: char)
    requires |segs| >= 1 && segs[|segs| - 1] != ""
    ensures var j := Join(segs, sep); j != [] && j[|j| - 1] == segs[|segs| - 1][|segs[|segs| - 1]| - 1]
    decreases |segs|
  {
    if |segs| > 1 {
      var rest := segs[1..];
      assert rest[|rest| - 1] == segs[|segs| - 1];
      JoinLastChar(rest, sep);
    }
  }

  /** Joining clean segments neither starts nor ends with `/`. */
  lemma JoinCleanEnds(segs: seq<string>)
    requires |segs| >= 1 && CleanSegments(segs)
    ensures var j := Join(segs, '/'); j != [] && j[0] != '/' && j[|j| - 1] != '/'
  {
    JoinFirstChar(segs, '/');
    JoinLastChar(segs, '/');
    var first, last := segs[0], segs[|segs| - 1];
    assert first[0] in first;
    assert last[|last| - 1] in last;
  }

  /** A trailing `/` only adds an empty piece, which is dropped. */
  lemma KeepSplitTrailing(x: string)
    ensures KeepSegments(Split(x + "/", '/')) == KeepSegments(Split(x, '/'))
  {
    SplitConcatSep(x, '/', "");
    assert x + ['/'] + "" == x + "/";
    KeepSegmentsConcat(Split(x, '/'), [""]);
  }

  /** A leading `/` only adds an empty piece, which is dropped. */
  lemma KeepSplitLeading(x: string)
    ensures KeepSegments(Split("/" + x, '/')) == KeepSegments(Split(x, '/'))
  {
    SplitAfterSep("", '/', x);
    assert "" + ['/'] + x == "/" + x;
    KeepSegmentsConcat([""], Split(x, '/'));
  }

  /** A trailing `/`, when there is one, makes no difference to the kept segments. */
  lemma KeepSplitMaybeTrailing(x: string, trailing: bool)
    ensures KeepSegments(Split(x + (if trailing then "/" else ""), '/')) == KeepSegments(Split(x, '/'))
  {
    if trailing {
      KeepSplitTrailing(x);
    } else {
      assert x + "" == x;
    }
  }

  /** A leading `/`, when there is one, makes no difference to the kept segments. */
  lemma KeepSplitMaybeLeading(x: string, absolute: bool)
    ensures KeepSegments(Split((if absolute then "/" else "") + x, '/')) == KeepSegments(Split(x, '/'))
  {
    if absolute {
      KeepSplitLeading(x);
    } else {
      assert "" + x == x;
    }
  }

  /** The segments kept from a path do not depend on a leading or a trailing `/`. */
  lemma KeepSplitFramed(body: string, absolute: bool, trailing: bool)
    ensures var lead, tail := (if absolute then "/" else ""), (if trailing then "/" else "");
      KeepSegments(Split(lead + body + tail, '/')) == KeepSegments(Split(body, '/'))
  {
    var lead, tail := (if absolute then "/" else ""), (if trailing then "/" else "");
    KeepSplitMaybeTrailing(body, trailing);
    KeepSplitMaybeLeading(body + tail, absolute);
    AppendAssoc(lead, body, tail);
  }

  /** Normalising clean segments joined by `/` gives the joined path back. */
  lemma NormalizeClean(segs: seq<string>)
    requires |segs| >= 1 && CleanSegments(segs)
    ensures Normalize(Join(segs, '/')) == Join(segs, '/')
  {
    var p := Join(segs, '/');
    JoinCleanEnds(segs);
    assert Normalize(p) == Assemble(false, false, Body(p));
    BodyOfClean(segs);
    AssemblePlain(p);
  }

  /** Clean segments, joined, are their own body. */
  lemma BodyOfClean(segs: seq<string>)
    requires |segs| >= 1 && CleanSegments(segs)
    ensures Body(Join(segs, '/')) == Join(segs, '/')
  {
    SplitJoin(segs, '/');
    KeepSegmentsOfKept(segs);
  }

  /** A relative body with no trailing `/` is assembled as itself. */
  lemma AssemblePlain(body: string)
    requires body != []
    ensures Assemble(false, false, body) == body
  {
    assert "" + body + "" == body;
  }

  /** The kept segments of a path are clean. */
  lemma KeptSegmentsClean(p: string)
    ensures CleanSegments(KeepSegments(Split(p, '/')))
  {
    var parts := Split(p, '/');
    var segs := KeepSegments(parts);
    SplitPiecesFree(p, '/');
    forall k | 0 <= k < |segs| ensures '/' !in segs[k] {
      assert segs[k] in parts;
    }
  }

  /** A body is its own body. */
  lemma BodyOfBody(p: string)
    ensures Body(Body(p)) == Body(p)
  {
    var segs := KeepSegments(Split(p, '/'));
    if segs == [] {
      assert Body(p) == "";
      assert Split("", '/') == [""];
    } else {
      KeptSegmentsClean(p);
      SplitJoin(segs, '/');
      KeepSegmentsOfKept(segs);
    }
  }

  /** A non-empty body neither starts nor ends with `/`. */
  lemma BodyEnds(p: string)
    ensures var b := Body(p); b != [] ==> b[0] != '/' && b[|b| - 1] != '/'
  {
    if Body(p) != [] {
      KeptSegmentsClean(p);
      JoinCleanEnds(KeepSegments(Split(p, '/')));
    }
  }

  /** The body of an assembled path is the body it was assembled from. */
  lemma BodyOfAssemble(absolute: bool, trailing: bool, p: string)
    ensures Body(Assemble(absolute, trailing, Body(p))) == Body(p)
  {
    var body := Body(p);
    if body == [] {
      SplitAfterSep("", '/', "");
      assert "" + ['/'] + "" == "/";
      assert KeepSegments(["", ""]) == [];
      SplitAfterSep(".", '/', "");
      assert "." + ['/'] + "" == "./";
      assert KeepSegments([".", ""]) == [];
      assert Split(".", '/') == ["."];
      assert KeepSegments(["."]) == [];
    } else {
      KeepSplitFramed(body, absolute, trailing);
      BodyOfBody(p);
    }
  }

  /** Normalising twice is normalising once. */
  lemma NormalizeIdempotent(p: string)
    ensures Normalize(Normalize(p)) == Normalize(p)
  {
    if p != [] {
      var absolute, trailing, body := p[0] == '/', p[|p| - 1] == '/', Body(p);
      var r := Assemble(absolute, trailing, body);
      BodyOfAssemble(absolute, trailing, p);
      if body != [] {
        BodyEnds(p);
        AssembleEnds(absolute, trailing, body);
      }
    }
  }

  /** An assembled path starts with `/` exactly when absolute, and ends with one exactly when trailing. */
  lemma AssembleEnds(absolute: bool, trailing: bool, body: string)
    requires body != [] && body[0] != '/' && body[|body| - 1] != '/'
    ensures var r := Assemble(absolute, trailing, body);
      (r[0] == '/' <==> absolute) && (r[|r| - 1] == '/' <==> trailing)
  {
    var lead, tail := (if absolute then "/" else ""), (if trailing then "/" else "");
    var r := lead + body + tail;
    assert r[|lead|] == body[0];
    assert r[|lead| + |body| - 1] == body[|body| - 1];
  }

  /** A leading `./` on a relative path makes no difference. */
  lemma NormalizeDropsDotPrefix(p: string)
    requires p != [] && p[0] != '/'
    ensures Normalize("./" + p) == Normalize(p)
  {
    var q := "./" + p;
    var parts := Split(p, '/');
    SplitAfterSep(".", '/', p);
    AppendAssoc(".", ['/'], p);
    assert "." + ['/'] == "./";
    assert Split(q, '/') == ["."] + parts;
    KeepSegmentsConcat(["."], parts);
    assert KeepSegments(["."]) == [];
    assert KeepSegments(Split(q, '/')) == KeepSegments(parts);
    assert Body(q) == Body(p);
    assert q[0] == '.' && q[|q| - 1] == p[|p| - 1];
  }

  /** Normalisation keeps a path absolute or relative. */
  lemma NormalizeKeepsAbsolute(p: string)
    requires p != []
    ensures var r := Normalize(p); r[0] == '/' <==> p[0] == '/'
  {
    BodyEnds(p);
  }
}
