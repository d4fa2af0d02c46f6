/** Path simplification: splitting, dropping `.` and resolving `..` in place, and joining again. */
module Paths {
  // ---------------------------------------------------------------- splitting

  /** `str.find(c, from)`; the length stands for `npos`. */
  function Find(s: string, c: char, from: nat): (r: nat)
    requires from <= |s|
    ensures from <= r <= |s| && (r < |s| ==> s[r] == c) && forall i | from <= i < r :: s[i] != c
    decreases |s| - from
  {
    if from == |s| || s[from] == c then from else Find(s, c, from + 1)
  }

  /** All pieces between delimiters, empty ones included. */
  function Pieces(s: string, c: char): (r: seq<string>)
    ensures |r| > 0
    decreases |s|
  {
    var n := Find(s, c, 0);
    if n == |s| then [s] else [s[..n]] + Pieces(s[n + 1..], c)
  }

  function NonEmpty(pieces: seq<string>): (r: seq<string>) {
    if |pieces| == 0 then [] else (if pieces[0] == "" then [] else [pieces[0]]) + NonEmpty(pieces[1..])
  }

  /** Condensing drops empty pieces, but never the first. */
  function Condensed(pieces: seq<string>): (r: seq<string>)
    requires |pieces| > 0
  {
    [pieces[0]] + NonEmpty(pieces[1..])
  }

  lemma {:induction false} FindIs(s: string, c: char, from: nat, r: nat)
    requires from <= r <= |s| && (r < |s| ==> s[r] == c) && forall i | from <= i < r :: s[i] != c
    ensures Find(s, c, from) == r
    decreases r - from
  {
    if from < r {
      FindIs(s, c, from + 1, r);
    }
  }

  /** The pieces of a string cut at its first delimiter. */
  lemma PiecesCut(a: string, c: char, b: string)
    requires c !in a
    ensures Pieces(a + [c] + b, c) == [a] + Pieces(b, c)
  {
    var t := a + [c] + b;
    FindIs(t, c, 0, |a|);
    assert t[..|a|] == a && t[|a| + 1..] == b;
  }

  lemma PiecesOfOne(s: string, c: char)
    requires c !in s
    ensures Pieces(s, c) == [s]
  {
    FindIs(s, c, 0, |s|);
  }

  lemma PiecesStep(s: string, c: char, from: nat)
    requires from <= |s|
    ensures var next := Find(s, c, from);
            Pieces(s[from..], c) == if next == |s| then [s[from..]] else [s[from..next]] + Pieces(s[next + 1..], c)
  {
    hide Pieces;
    var next := Find(s, c, from);
    assert c !in s[from..next];
    if next < |s| {
      assert s[from..] == s[from..next] + [c] + s[next + 1..];
      PiecesCut(s[from..next], c, s[next + 1..]);
    } else {
      PiecesOfOne(s[from..], c);
    }
  }

  lemma NonEmptyCons(p: string, rest: seq<string>)
    ensures NonEmpty([p] + rest) == (if p == "" then [] else [p]) + NonEmpty(rest)
  {
    assert ([p] + rest)[1..] == rest;
  }

  /** The pieces still to come after the delimiter at `next`. */
  function Rest(s: string, c: char, condense: bool, next: nat): (r: seq<string>)
    requires next <= |s|
  {
    if next == |s| then [] else if condense then NonEmpty(Pieces(s[next + 1..], c)) else Pieces(s[next + 1..], c)
  }

  function SplitOf(s: string, c: char, condense: bool): (r: seq<string>) {
    if s == "" then [] else if condense then Condensed(Pieces(s, c)) else Pieces(s, c)
  }

  lemma SplitStarts(s: string, c: char, condense: bool)
    requires s != ""
    ensures var next := Find(s, c, 0); SplitOf(s, c, condense) == [s[..next]] + Rest(s, c, condense, next)
  {
    PiecesStep(s, c, 0);
    assert s[0..] == s;
    hide Find;
    var next := Find(s, c, 0);
    if next == |s| {
      assert s[..next] == s && [s][1..] == [] && [s] + [] == [s];
    } else {
      assert Pieces(s, c)[1..] == Pieces(s[next + 1..], c);
    }
  }

  lemma RestIs(s: string, c: char, condense: bool, next: nat, pieces: seq<string>)
    requires next <= |s| && pieces == if next == |s| then [] else Pieces(s[next + 1..], c)
    ensures Rest(s, c, condense, next) == if condense then NonEmpty(pieces) else pieces
  {
    hide Pieces;
  }

  lemma FirstPiece(s: string, from: nat, next: nat, pieces: seq<string>)
    requires from <= next <= |s| && (next == |s| ==> pieces == [])
    ensures next == |s| ==> [s[from..next]] + pieces == [s[from..]]
  {
    if next == |s| {
      assert s[from..next] == s[from..];
      assert [s[from..]] + [] == [s[from..]];
    }
  }

  lemma RestStep(s: string, c: char, condense: bool, last: nat)
    requires last < |s|
    ensures var next := Find(s, c, last + 1);
            var sub := s[last + 1..next];
            Rest(s, c, condense, last) == (if sub != "" || !condense then [sub] else []) + Rest(s, c, condense, next)
  {
    PiecesStep(s, c, last + 1);
    hide Find, Pieces, NonEmpty, Rest;
    var next := Find(s, c, last + 1);
    var sub := s[last + 1..next];
    var pieces := if next == |s| then [] else Pieces(s[next + 1..], c);
    FirstPiece(s, last + 1, next, pieces);
    assert Pieces(s[last + 1..], c) == [sub] + pieces;
    RestIs(s, c, condense, last, [sub] + pieces);
    RestIs(s, c, condense, next, pieces);
    if condense {
      NonEmptyCons(sub, pieces);
    }
  }

  /** `split` on a one-character delimiter. */
  method Split(str: string, delimiter: char, condense: bool) returns (out: seq<string>)
    ensures out == SplitOf(str, delimiter, condense)
  {
    if str == "" {
      return [];
    }
    SplitStarts(str, delimiter, condense);
    hide SplitOf;
    var next := Find(str, delimiter, 0);
    if next == |str| {
      assert str[..next] == str;
      return [str];
    }
    out := [str[..next]];
    while next != |str|
      invariant next <= |str| && SplitOf(str, delimiter, condense) == out + Rest(str, delimiter, condense, next)
      decreases |str| - next
    {
      hide Rest;
      var last := next;
      RestStep(str, delimiter, condense, last);
      next := Find(str, delimiter, last + 1);
      var sub := str[last + 1..next];
      Append(out, [sub], Rest(str, delimiter, condense, next));
      if sub != "" || !condense {
        out := out + [sub];
      }
    }
  }

  lemma Append(a: seq<string>, b: seq<string>, c: seq<string>)
    ensures a + (b + c) == a + b + c && [] + c == c
  {
  }

  lemma CutAndAppend(a: string, n: nat, c: char, b: string)
    requires n < |a| && a[n] == c
    ensures a == a[..n] + [c] + a[n + 1..]
    ensures a + [c] + b == a[..n] + [c] + (a[n + 1..] + [c] + b)
  {
  }

  // ---------------------------------------------------------------- resolving

  /** What one component does to the stack of names above the root. */
  function Step(stack: seq<string>, piece: string): (r: seq<string>) {
    if piece == "" || piece == "." then stack
    else if piece == ".." then (if |stack| == 0 then [] else stack[..|stack| - 1])
    else stack + [piece]
  }

  /** Components taken from left to right. */
  function Fold(stack: seq<string>, pieces: seq<string>): (r: seq<string>)
    decreases |pieces|
  {
    if |pieces| == 0 then stack else Fold(Step(stack, pieces[0]), pieces[1..])
  }

  predicate Name(piece: string) {
    piece != "" && piece != "." && piece != ".." && '/' !in piece
  }

  predicate Names(pieces: seq<string>) {
    forall i | 0 <= i < |pieces| :: Name(pieces[i])
  }

  lemma {:induction false} FoldSplit(stack: seq<string>, a: seq<string>, b: seq<string>)
    ensures Fold(stack, a + b) == Fold(Fold(stack, a), b)
    decreases |a|
  {
    if |a| == 0 {
      assert a + b == b;
    } else {
      assert (a + b)[1..] == a[1..] + b;
      FoldSplit(Step(stack, a[0]), a[1..], b);
    }
  }

  lemma {:induction false} FoldNonEmpty(stack: seq<string>, pieces: seq<string>)
    ensures Fold(stack, NonEmpty(pieces)) == Fold(stack, pieces)
    decreases |pieces|
  {
    if |pieces| > 0 {
      FoldNonEmpty(Step(stack, pieces[0]), pieces[1..]);
      if pieces[0] != "" {
        assert NonEmpty(pieces)[1..] == NonEmpty(pieces[1..]);
      } else {
        assert NonEmpty(pieces) == NonEmpty(pieces[1..]);
      }
    }
  }

  lemma {:induction false} FoldNames(stack: seq<string>, pieces: seq<string>)
    requires Names(pieces)
    ensures Fold(stack, pieces) == stack + pieces
    decreases |pieces|
  {
    if |pieces| == 0 {
      assert stack + pieces == stack;
    } else {
      FoldNames(stack + [pieces[0]], pieces[1..]);
      assert stack + [pieces[0]] + pieces[1..] == stack + pieces;
    }
  }

  predicate NoSlashes(pieces: seq<string>) {
    forall i | 0 <= i < |pieces| :: '/' !in pieces[i]
  }

  /** Folding leaves only names. */
  lemma {:induction false} FoldIsNames(stack: seq<string>, pieces: seq<string>)
    requires Names(stack) && NoSlashes(pieces)
    ensures Names(Fold(stack, pieces))
    decreases |pieces|
  {
    if |pieces| > 0 {
      FoldIsNames(Step(stack, pieces[0]), pieces[1..]);
    }
  }

  lemma FoldNext(stack: seq<string>, pieces: seq<string>)
    requires |pieces| > 0
    ensures Fold(stack, pieces) == Fold(Step(stack, pieces[0]), pieces[1..])
  {
  }

  /** Dropping the component at `iter`. */
  lemma FoldDrops(split: seq<string>, iter: nat)
    requires iter < |split| && (split[iter] == "" || split[iter] == "." || (split[iter] == ".." && iter == 0))
    ensures var t := split[..iter] + split[iter + 1..];
            Fold(t[..iter], t[iter..]) == Fold(split[..iter], split[iter..])
  {
    var t := split[..iter] + split[iter + 1..];
    assert t[..iter] == split[..iter] && t[iter..] == split[iter + 1..] == split[iter..][1..];
    FoldNext(split[..iter], split[iter..]);
    hide Fold;
  }

  /** Dropping a `..` and the name before it. */
  lemma FoldGoesUp(split: seq<string>, iter: nat)
    requires 0 < iter < |split| && split[iter] == ".."
    ensures var t := split[..iter - 1] + split[iter + 1..];
            Fold(t[..iter - 1], t[iter - 1..]) == Fold(split[..iter], split[iter..])
  {
    var t := split[..iter - 1] + split[iter + 1..];
    assert t[..iter - 1] == split[..iter][..iter - 1] && t[iter - 1..] == split[iter + 1..] == split[iter..][1..];
    FoldNext(split[..iter], split[iter..]);
    hide Fold;
  }

  lemma FoldKeeps(split: seq<string>, iter: nat)
    requires iter < |split| && split[iter] != "" && split[iter] != "." && split[iter] != ".."
    ensures Fold(split[..iter + 1], split[iter + 1..]) == Fold(split[..iter], split[iter..])
  {
    assert split[..iter + 1] == split[..iter] + [split[iter]] && split[iter..][1..] == split[iter + 1..];
    FoldNext(split[..iter], split[iter..]);
    hide Fold;
  }

  lemma FoldDone(stack: seq<string>)
    ensures Fold(stack, []) == stack
  {
  }

  /** The loop that walks the component list, erasing as it goes. */
  method Resolve(pieces: seq<string>) returns (split: seq<string>)
    ensures split == Fold([], pieces)
  {
    hide Fold;
    split := pieces;
    var iter := 0;
    assert split[..0] == [] && split[0..] == pieces;
    while iter < |split|
      invariant 0 <= iter <= |split|
      invariant Fold(split[..iter], split[iter..]) == Fold([], pieces)
      decreases |split| - iter
    {
      var piece := split[iter];
      if piece == "" || piece == "." || (piece == ".." && iter == 0) {
        FoldDrops(split, iter);
        split := split[..iter] + split[iter + 1..];
      } else if piece == ".." {
        FoldGoesUp(split, iter);
        split := split[..iter - 1] + split[iter + 1..];
        iter := iter - 1;
      } else {
        FoldKeeps(split, iter);
        iter := iter + 1;
      }
    }
    assert split[..iter] == split && split[iter..] == [];
    FoldDone(split);
  }

  // ---------------------------------------------------------------- joining

  function Joined(pieces: seq<string>): (r: string) {
    if |pieces| == 0 then "" else "/" + pieces[0] + Joined(pieces[1..])
  }

  function Join(pieces: seq<string>): (r: string)
    ensures |r| > 0 && r[0] == '/'
  {
    if |pieces| == 0 then "/" else Joined(pieces)
  }

  lemma {:induction false} JoinedLast(a: seq<string>, p: string)
    ensures Joined(a + [p]) == Joined(a) + "/" + p
  {
    if |a| == 0 {
      assert [p][1..] == [];
      assert a + [p] == [p];
    } else {
      assert (a + [p])[1..] == a[1..] + [p];
      JoinedLast(a[1..], p);
    }
  }

  /** The normal form of a path: its components folded, joined from the root. */
  function Normal(path: string): (r: string) {
    Join(Fold([], Pieces(path, '/')))
  }

  lemma FoldCondensed(pieces: seq<string>)
    requires |pieces| > 0
    ensures Fold([], Condensed(pieces)) == Fold([], pieces)
  {
    FoldNonEmpty(Step([], pieces[0]), pieces[1..]);
    assert Condensed(pieces)[1..] == NonEmpty(pieces[1..]);
  }

  /** Everything after the split, which the two overloads share. */
  method SimplifyNonEmpty(path: string) returns (r: string)
    requires path != ""
    ensures r == Normal(path)
  {
    var split := Split(path, '/', true);
    FoldCondensed(Pieces(path, '/'));
    hide Pieces, Fold, Condensed;
    split := Resolve(split);
    if split == [] {
      return "/";
    }
    r := "";
    for i := 0 to |split|
      invariant r == Joined(split[..i])
    {
      JoinedLast(split[..i], split[i]);
      assert split[..i + 1] == split[..i] + [split[i]];
      r := r + "/";
      r := r + split[i];
    }
    assert split[..|split|] == split;
  }

  /** The path that a relative path stands for. */
  function Absolute(cwd: string, path: string): (r: string)
    requires path != ""
  {
    if path[0] == '/' then path
    else
      var c := if cwd == "" then "/" else cwd;
      if c[|c| - 1] == '/' then c + path else c + "/" + path
  }

  /** What resolving a path from a directory gives. */
  function Resolved(cwd: string, path: string): (r: string) {
    if path == "" then (if cwd == "" then "/" else cwd) else Normal(Absolute(cwd, path))
  }

  /** `simplifyPath(cwd, path)`. */
  method SimplifyPath(cwd: string, path: string) returns (r: string)
    ensures r == Resolved(cwd, path)
  {
    var dir := cwd;
    if dir == "" {
      dir := "/";
    }
    if path == "" {
      return dir;
    }
    var full := path;
    if path[0] != '/' {
      if dir[|dir| - 1] == '/' {
        full := dir + path;
      } else {
        full := dir + "/" + path;
      }
    }
    r := SimplifyNonEmpty(full);
  }

  /** `simplifyPath(path)`. */
  method SimplifyAbsolute(path: string) returns (r: string)
    ensures r == if path == "" then "/" else Normal(path)
  {
    if path == "" {
      return "/";
    }
    r := SimplifyNonEmpty(path);
  }

  // ---------------------------------------------------------------- what simplification promises

  lemma {:induction false} PiecesHaveNoSlash(s: string)
    ensures NoSlashes(Pieces(s, '/'))
    decreases |s|
  {
    var n := Find(s, '/', 0);
    if n < |s| {
      PiecesHaveNoSlash(s[n + 1..]);
    }
  }

  /** Pieces of two strings put together with a delimiter. */
  lemma {:induction false} PiecesParts(a: string, c: char, b: string)
    ensures Pieces(a + [c] + b, c) == Pieces(a, c) + Pieces(b, c)
    decreases |a|
  {
    var n := Find(a, c, 0);
    hide Pieces;
    if n == |a| {
      PiecesCut(a, c, b);
      PiecesOfOne(a, c);
    } else {
      var p, rest := a[..n], a[n + 1..];
      PiecesParts(rest, c, b);
      CutAndAppend(a, n, c, b);
      PiecesCut(p, c, rest);
      PiecesCut(p, c, rest + [c] + b);
      Append([p], Pieces(rest, c), Pieces(b, c));
    }
  }

  /** Splitting undoes joining. */
  lemma {:induction false} PiecesOfJoined(a: seq<string>)
    requires NoSlashes(a)
    ensures Pieces(Joined(a), '/') == [""] + a
    decreases |a|
  {
    PiecesOfOne("", '/');
    if |a| == 0 {
      assert [""] + a == [""];
    } else {
      var n := |a| - 1;
      assert a == a[..n] + [a[n]];
      JoinedLast(a[..n], a[n]);
      PiecesOfJoined(a[..n]);
      PiecesParts(Joined(a[..n]), '/', a[n]);
      PiecesOfOne(a[n], '/');
      hide Pieces;
      assert [""] + a[..n] + [a[n]] == [""] + a;
    }
  }

  lemma FoldOfJoined(names: seq<string>)
    requires Names(names)
    ensures Fold([], Pieces(Join(names), '/')) == names
  {
    PiecesOfJoined(names);
    if |names| == 0 {
      PiecesOfOne("", '/');
      PiecesParts("", '/', "");
      assert "" + "/" + "" == "/";
      assert [""] + [""] == ["", ""];
      assert Fold([], ["", ""]) == Fold([], [""]);
    } else {
      FoldNames([], names);
      assert ([""] + names)[1..] == names;
      assert [] + names == names;
    }
  }

  lemma NormalNames(path: string)
    ensures Names(Fold([], Pieces(path, '/')))
  {
    PiecesHaveNoSlash(path);
    FoldIsNames([], Pieces(path, '/'));
  }

  /** The result is absolute, and past the root its components are all real names. */
  lemma NormalIsClean(path: string)
    ensures Normal(path)[0] == '/'
    ensures Normal(path) == "/" || (Pieces(Normal(path), '/')[0] == "" && Names(Pieces(Normal(path), '/')[1..]))
  {
    var names := Fold([], Pieces(path, '/'));
    NormalNames(path);
    if |names| > 0 {
      PiecesOfJoined(names);
      assert ([""] + names)[1..] == names;
    }
  }

  /** Simplifying twice changes nothing. */
  lemma NormalIsIdempotent(path: string)
    ensures Normal(Normal(path)) == Normal(path)
  {
    NormalNames(path);
    FoldOfJoined(Fold([], Pieces(path, '/')));
  }

  lemma NormalOfParts(a: string, b: string)
    ensures Normal(a + "/" + b) == Join(Fold(Fold([], Pieces(a, '/')), Pieces(b, '/')))
  {
    PiecesParts(a, '/', b);
    FoldSplit([], Pieces(a, '/'), Pieces(b, '/'));
  }

  lemma RootThenRelative(b: string)
    ensures Normal("/" + b) == Normal(b)
  {
    NormalOfParts("", b);
    PiecesOfOne("", '/');
    assert Fold([], [""]) == [];
    hide Fold, Pieces, Join;
    assert "" + "/" + b == "/" + b;
  }

  /** Resolving a relative path from a simplified directory is resolving it from the directory. */
  lemma NormalThenRelative(a: string, b: string)
    ensures var d := Normal(a);
            Normal(if d[|d| - 1] == '/' then d + b else d + "/" + b) == Normal(a + "/" + b)
  {
    var names := Fold([], Pieces(a, '/'));
    var d := Join(names);
    NormalNames(a);
    NormalOfParts(a, b);
    FoldOfJoined(names);
    if |names| == 0 {
      RootThenRelative(b);
    } else {
      JoinedEnds(names);
      NormalOfParts(d, b);
    }
  }

  lemma JoinedEnds(names: seq<string>)
    requires |names| > 0 && Names(names)
    ensures |Joined(names)| > 0 && Joined(names)[|Joined(names)| - 1] != '/'
  {
    var n := |names| - 1;
    assert names == names[..n] + [names[n]];
    JoinedLast(names[..n], names[n]);
    var p := names[n];
    assert Name(p);
    assert (Joined(names[..n]) + "/" + p)[|Joined(names)| - 1] == p[|p| - 1];
  }

  /** Composition: going to `a` and from there to a relative `b` is going to `a/b`. */
  lemma ResolvedComposes(cwd: string, a: string, b: string)
    requires a != "" && (b == "" || b[0] != '/')
    ensures Resolved(Resolved(cwd, a), b) == Resolved(cwd, a + "/" + b)
  {
    var full := Absolute(cwd, a);
    AbsoluteParts(cwd, a, b);
    hide Absolute, Normal;
    if b == "" {
      SlashAtEnd(full);
    } else {
      NormalThenRelative(full, b);
      FromDirectory(Normal(full), b);
    }
  }

  lemma FromDirectory(d: string, b: string)
    requires d != "" && b != "" && b[0] != '/'
    ensures Absolute(d, b) == if d[|d| - 1] == '/' then d + b else d + "/" + b
  {
  }

  lemma SlashAtEnd(a: string)
    ensures Normal(a + "/" + "") == Normal(a) && Normal(a) != ""
  {
    NormalOfParts(a, "");
    PiecesOfOne("", '/');
    assert Fold(Fold([], Pieces(a, '/')), [""]) == Fold([], Pieces(a, '/'));
  }

  lemma AbsoluteParts(cwd: string, a: string, b: string)
    requires a != ""
    ensures Absolute(cwd, a + "/" + b) == Absolute(cwd, a) + "/" + b
  {
    var c := if cwd == "" then "/" else cwd;
    assert (a + "/" + b)[0] == a[0];
    assert c + (a + "/" + b) == c + a + "/" + b && c + "/" + (a + "/" + b) == c + "/" + a + "/" + b;
  }

  /** The overload without a directory resolves from the root. */
  lemma RootOverload(path: string)
    ensures Resolved("/", path) == if path == "" then "/" else Normal(path)
  {
    if path != "" && path[0] != '/' {
      RootThenRelative(path);
    }
  }

  /** The directory plays no part for an absolute path, and a relative one continues it, whether or not the
      directory ends in a slash. */
  lemma ResolvedFrom(cwd: string, path: string)
    requires path != ""
    ensures path[0] == '/' ==> Resolved(cwd, path) == Normal(path)
    ensures path[0] != '/' ==> Resolved(cwd, path) == Normal(cwd + "/" + path)
  {
    if path[0] != '/' && cwd != "" && cwd[|cwd| - 1] == '/' {
      var a := cwd[..|cwd| - 1];
      assert cwd == a + "/" + "";
      SlashesMerge(a, path);
    }
    assert cwd == "" ==> cwd + "/" + path == "/" + path;
    hide Normal;
  }

  lemma SlashesMerge(a: string, b: string)
    ensures Normal(a + "/" + "" + "/" + b) == Normal(a + "/" + "" + b)
  {
    NormalOfParts(a + "/" + "", b);
    NormalOfParts(a, b);
    SlashFolds(a);
    hide Fold, Pieces, Join, Normal;
    assert a + "/" + "" + b == a + "/" + b;
  }

  lemma SlashFolds(a: string)
    ensures Fold([], Pieces(a + "/" + "", '/')) == Fold([], Pieces(a, '/'))
  {
    PiecesParts(a, '/', "");
    PiecesOfOne("", '/');
    FoldSplit([], Pieces(a, '/'), [""]);
    hide Pieces;
    assert Fold(Fold([], Pieces(a, '/')), [""]) == Fold([], Pieces(a, '/'));
  }

  lemma NormalOfOneMore(a: string, p: string)
    requires '/' !in p
    ensures Normal(a + "/" + p) == Join(Step(Fold([], Pieces(a, '/')), p))
  {
    NormalOfParts(a, p);
    PiecesOfOne(p, '/');
    FoldNext(Fold([], Pieces(a, '/')), [p]);
    FoldDone(Step(Fold([], Pieces(a, '/')), p));
    hide Fold, Step, Pieces;
    assert [p][1..] == [];
  }

  /** A further slash or `.` changes nothing, and a further name is put behind. */
  lemma OneMore(a: string, p: string)
    requires p == "" || p == "." || Name(p)
    ensures Normal(a + "/" + p)
            == if !Name(p) then Normal(a) else if Normal(a) == "/" then "/" + p else Normal(a) + "/" + p
  {
    var names := Fold([], Pieces(a, '/'));
    NormalOfOneMore(a, p);
    NormalNames(a);
    hide Pieces, Fold;
    if Name(p) {
      JoinedLast(names, p);
      if |names| > 0 {
        JoinedEnds(names);
      } else {
        assert "" + "/" + p == "/" + p;
      }
    }
  }

  /** `..` takes back a name. */
  lemma GoesUp(a: string, n: string)
    requires Name(n)
    ensures Normal(a + "/" + n + "/" + "..") == Normal(a)
  {
    var names := Fold([], Pieces(a, '/'));
    NormalOfOneMore(a + "/" + n, "..");
    FoldOfOneMore(a, n);
    hide Pieces, Fold, Join;
    assert Step(names + [n], "..") == names by {
      assert (names + [n])[..|names|] == names;
    }
  }

  lemma FoldOfOneMore(a: string, n: string)
    requires Name(n)
    ensures Fold([], Pieces(a + "/" + n, '/')) == Fold([], Pieces(a, '/')) + [n]
  {
    var names := Fold([], Pieces(a, '/'));
    PiecesParts(a, '/', n);
    PiecesOfOne(n, '/');
    FoldSplit([], Pieces(a, '/'), [n]);
    FoldNext(names, [n]);
    FoldDone(names + [n]);
    hide Pieces, Fold;
    assert [n][1..] == [];
  }

  /** `..` stays at the root. */
  lemma StaysAtRoot(a: string)
    requires Normal(a) == "/"
    ensures Normal(a + "/" + "..") == "/"
  {
    var names := Fold([], Pieces(a, '/'));
    NormalOfOneMore(a, "..");
    NormalNames(a);
    hide Pieces, Fold;
    if |names| > 0 {
      JoinedEnds(names);
    }
  }
}
