/** Request-path normalisation: `cleanPath` and `splitPath`.

    Strings stand for Go byte strings: one `char` is one byte. `path.Clean` belongs to Go's
    standard library, so `CleanRooted` follows its documented result for a rooted path: drop
    empty and `.` elements, let `..` remove the element before it, and never climb above the
    root. */
module Paths {

  predicate NoSlash(s: string) {
    forall i :: 0 <= i < |s| ==> s[i] != '/'
  }

  /** An element that a cleaned path may contain. */
  predicate Proper(s: string) {
    s != "" && s != "." && s != ".." && NoSlash(s)
  }

  predicate AllProper(parts: seq<string>) {
    forall i :: 0 <= i < |parts| ==> Proper(parts[i])
  }

  /** strings.Split(p, "/") */
  function Split(p: string): (parts: seq<string>)
    ensures |parts| >= 1
    ensures forall i :: 0 <= i < |parts| ==> NoSlash(parts[i])
  {
    if p == "" then [""]
    else
      var rest := Split(p[1..]);
      if p[0] == '/' then [""] + rest else [[p[0]] + rest[0]] + rest[1..]
  }

  /** strings.Join(parts, "/") */
  function Join(parts: seq<string>): string {
    if parts == [] then ""
    else if |parts| == 1 then parts[0]
    else parts[0] + "/" + Join(parts[1..])
  }

  /** Path elements folded onto the elements kept so far. */
  function Normalise(parts: seq<string>, kept: seq<string>): seq<string>
    decreases |parts|
  {
    if parts == [] then kept
    else if parts[0] == "" || parts[0] == "." then Normalise(parts[1..], kept)
    else if parts[0] == ".." then
      Normalise(parts[1..], if kept == [] then [] else kept[..|kept| - 1])
    else Normalise(parts[1..], kept + [parts[0]])
  }

  function CleanRooted(p: string): string {
    "/" + Join(Normalise(Split(p), []))
  }

  function CleanPath(p: string): string {
    if p == "" then "/"
    else if p[0] != '/' then CleanRooted("/" + p)
    else CleanRooted(p)
  }

  function TrimLeft(p: string): string {
    if p != "" && p[0] == '/' then TrimLeft(p[1..]) else p
  }

  function TrimRight(p: string): string {
    if p != "" && p[|p| - 1] == '/' then TrimRight(p[..|p| - 1]) else p
  }

  function SplitPath(p: string): seq<string> {
    if p == "/" then []
    else
      var trimmed := TrimRight(TrimLeft(p));
      if trimmed == "" then [] else Split(trimmed)
  }

  /** What both registration and lookup feed to the route tree. */
  function Segments(p: string): seq<string> {
    SplitPath(CleanPath(p))
  }

  lemma {:induction false} SplitOfJoin(parts: seq<string>)
    requires parts != []
    requires forall i :: 0 <= i < |parts| ==> NoSlash(parts[i])
    ensures Split(Join(parts)) == parts
  {
    if |parts| == 1 {
      SplitPlain(parts[0], "");
      assert parts[0] + "" == parts[0];
      assert [parts[0] + Split("")[0]] + Split("")[1..] == parts;
    } else {
      SplitOfJoin(parts[1..]);
      SplitPlain(parts[0], "/" + Join(parts[1..]));
      assert parts[0] + ("/" + Join(parts[1..])) == Join(parts);
      assert ("/" + Join(parts[1..]))[1..] == Join(parts[1..]);
      assert parts[0] + "" == parts[0];
    }
  }

  /** Text without a slash only lengthens the first element. */
  lemma {:induction false} SplitPlain(a: string, b: string)
    requires NoSlash(a)
    ensures Split(a + b) == [a + Split(b)[0]] + Split(b)[1..]
  {
    if a == "" {
      assert a + b == b;
      assert a + Split(b)[0] == Split(b)[0];
    } else {
      SplitPlain(a[1..], b);
      assert (a + b)[1..] == a[1..] + b;
      assert [a[0]] + (a[1..] + Split(b)[0]) == a + Split(b)[0];
    }
  }

  lemma {:induction false} SplitTrailingSlash(p: string)
    ensures Split(p + "/") == Split(p) + [""]
  {
    if p == "" {
      assert p + "/" == "/";
      assert "/"[1..] == "";
    } else {
      SplitTrailingSlash(p[1..]);
      assert (p + "/")[1..] == p[1..] + "/";
    }
  }

  lemma {:induction false} NormaliseProper(parts: seq<string>, kept: seq<string>)
    requires forall i :: 0 <= i < |parts| ==> NoSlash(parts[i])
    requires AllProper(kept)
    ensures AllProper(Normalise(parts, kept))
    decreases |parts|
  {
    if parts == [] {
    } else if parts[0] == "" || parts[0] == "." {
      NormaliseProper(parts[1..], kept);
    } else if parts[0] == ".." {
      NormaliseProper(parts[1..], if kept == [] then [] else kept[..|kept| - 1]);
    } else {
      NormaliseProper(parts[1..], kept + [parts[0]]);
    }
  }

  lemma {:induction false} NormaliseKeepsProper(parts: seq<string>, kept: seq<string>)
    requires AllProper(parts)
    ensures Normalise(parts, kept) == kept + parts
    decreases |parts|
  {
    if parts == [] {
      assert kept + parts == kept;
    } else {
      NormaliseKeepsProper(parts[1..], kept + [parts[0]]);
      assert kept + [parts[0]] + parts[1..] == kept + parts;
    }
  }

  lemma {:induction false} NormaliseAppendEmpty(parts: seq<string>, kept: seq<string>)
    ensures Normalise(parts + [""], kept) == Normalise(parts, kept)
    decreases |parts|
  {
    if parts == [] {
      assert (parts + [""])[1..] == [];
    } else {
      var kept' := if parts[0] == "" || parts[0] == "." then kept
                   else if parts[0] == ".." then (if kept == [] then [] else kept[..|kept| - 1])
                   else kept + [parts[0]];
      NormaliseAppendEmpty(parts[1..], kept');
      assert (parts + [""])[1..] == parts[1..] + [""];
    }
  }

  lemma {:induction false} JoinEnds(parts: seq<string>)
    requires parts != [] && AllProper(parts)
    ensures Join(parts) != "" && Join(parts)[0] != '/' && Join(parts)[|Join(parts)| - 1] != '/'
  {
    if |parts| > 1 {
      JoinEnds(parts[1..]);
    }
  }

  /** The tree sees exactly the normalised elements of the path. */
  lemma {:induction false} SegmentsAreNormalised(p: string)
    ensures Segments(p) == Normalise(Split(p), [])
    ensures AllProper(Segments(p))
    ensures CleanPath(p) == "/" + Join(Segments(p))
  {
    var parts := Normalise(Split(p), []);
    NormaliseProper(Split(p), []);
    if p == "" {
    } else {
      if p[0] != '/' {
        assert ("/" + p)[1..] == p;
        assert ([""] + Split(p))[1..] == Split(p);
      }
      assert CleanPath(p) == "/" + Join(parts);
      if parts == [] {
      } else {
        JoinEnds(parts);
        assert ("/" + Join(parts))[1..] == Join(parts);
        assert TrimLeft("/" + Join(parts)) == Join(parts);
        SplitOfJoin(parts);
      }
    }
  }

  /** Cleaning is idempotent, and a trailing slash changes nothing. */
  lemma CleaningIsIdempotent(p: string)
    ensures CleanPath(CleanPath(p)) == CleanPath(p)
    ensures Segments(CleanPath(p)) == Segments(p)
    ensures Segments(p + "/") == Segments(p)
  {
    SegmentsAreNormalised(p);
    SegmentsAreNormalised(p + "/");
    SplitTrailingSlash(p);
    NormaliseAppendEmpty(Split(p), []);
    var segs := Segments(p);
    var c := CleanPath(p);
    SegmentsAreNormalised(c);
    assert c[1..] == Join(segs);
    if segs == [] {
      assert Split("/") == ["", ""];
    } else {
      SplitOfJoin(segs);
      assert Split(c) == [""] + segs;
      assert ([""] + segs)[1..] == segs;
      NormaliseKeepsProper(segs, []);
      assert [] + segs == segs;
    }
  }
}
