/** Path text and its components, as `std::path` reads them. */
module Paths {
  import opened Text
  import opened Traversal

  datatype Component = RootDir | CurDir | ParentDir | Normal(name: string)

  function NonEmpty(parts: seq<string>): (pieces: seq<string>)
    ensures forall piece <- pieces :: piece in parts && piece != []
  {
    Filter(parts, part => part != [])
  }

  /** The text between slashes; repeated and trailing slashes separate nothing. */
  function Pieces(path: string): seq<string> {
    NonEmpty(Split(path, '/'))
  }

  predicate IsAbsolute(path: string) {
    path != [] && path[0] == '/'
  }

  /** Pieces after the first: a single dot names nothing there. */
  function Later(pieces: seq<string>): seq<Component> {
    if pieces == [] then [] else LaterPiece(pieces[0]) + Later(pieces[1..])
  }

  function LaterPiece(piece: string): seq<Component> {
    if piece == "." then []
    else if piece == ".." then [ParentDir]
    else [Normal(piece)]
  }

  /** `Path::components`: a single dot survives only at the start of a relative path. */
  function Components(path: string): seq<Component> {
    var pieces := Pieces(path);
    if IsAbsolute(path) then [RootDir] + Later(pieces)
    else if pieces != [] && pieces[0] == "." then [CurDir] + Later(pieces[1..])
    else Later(pieces)
  }

  /** The names a path goes through, without the dots. */
  function Names(pieces: seq<string>): (names: seq<string>)
    ensures forall name <- names :: name in pieces && name != "."
  {
    if pieces == [] then []
    else (if pieces[0] == "." then [] else [pieces[0]]) + Names(pieces[1..])
  }

  function Normals(names: seq<string>): seq<Component> {
    seq(|names|, i requires 0 <= i < |names| => Normal(names[i]))
  }

  /** Only names and dots: no root, no parent. */
  predicate StaysBeneath(components: seq<Component>) {
    forall component <- components :: component.Normal? || component.CurDir?
  }

  lemma {:induction false} LaterExact(pieces: seq<string>)
    ensures StaysBeneath(Later(pieces)) <==> ".." !in pieces
    ensures ".." !in pieces ==> Later(pieces) == Normals(Names(pieces))
  {
    if pieces != [] {
      LaterExact(pieces[1..]);
      assert ".." in pieces <==> pieces[0] == ".." || ".." in pieces[1..];
      BeneathConcat(LaterPiece(pieces[0]), Later(pieces[1..]));
      LaterPieceExact(pieces[0]);
    }
  }

  lemma LaterPieceExact(piece: string)
    ensures StaysBeneath(LaterPiece(piece)) <==> piece != ".."
    ensures piece != ".." ==> LaterPiece(piece) == Normals(Names([piece]))
  {
    assert piece == ".." ==> ParentDir in LaterPiece(piece);
    assert [piece][1..] == [];
  }

  lemma BeneathConcat(one: seq<Component>, other: seq<Component>)
    ensures StaysBeneath(one + other) <==> StaysBeneath(one) && StaysBeneath(other)
  {
    assert forall component :: component in one + other <==> component in one || component in other;
  }

  /** Accepted are the relative paths without a `..`; their components are their names, after a dot if they start with one. */
  lemma ComponentsExact(path: string)
    ensures StaysBeneath(Components(path)) <==> !IsAbsolute(path) && ".." !in Pieces(path)
    ensures StaysBeneath(Components(path)) ==>
              var pieces := Pieces(path);
              Components(path) ==
              (if pieces != [] && pieces[0] == "." then [CurDir] else []) + Normals(Names(pieces))
  {
    var pieces := Pieces(path);
    if IsAbsolute(path) {
      assert RootDir in Components(path);
    } else if pieces != [] && pieces[0] == "." {
      LaterExact(pieces[1..]);
      assert pieces == [pieces[0]] + pieces[1..];
      BeneathConcat([CurDir], Later(pieces[1..]));
      assert Names(pieces) == Names(pieces[1..]);
    } else {
      LaterExact(pieces);
      assert [] + Normals(Names(pieces)) == Normals(Names(pieces));
    }
  }

  /** A piece that is not a dot is a name, or the way to the parent. */
  function Named(names: seq<string>): (components: seq<Component>)
    ensures |components| == |names|
    ensures forall i :: 0 <= i < |names| ==> components[i] == if names[i] == ".." then ParentDir else Normal(names[i])
  {
    seq(|names|, i requires 0 <= i < |names| => if names[i] == ".." then ParentDir else Normal(names[i]))
  }

  lemma {:induction false} LaterIsNamed(pieces: seq<string>)
    ensures Later(pieces) == Named(Names(pieces))
  {
    if pieces != [] {
      LaterIsNamed(pieces[1..]);
    }
  }

  /** An absolute path is the root and then its pieces, without the dots. */
  lemma AbsoluteExact(path: string)
    requires IsAbsolute(path)
    ensures Components(path) == [RootDir] + Named(Names(Pieces(path)))
  {
    LaterIsNamed(Pieces(path));
  }

  // ---------- joining ----------

  /** `Path::join` on components: an absolute right side replaces, a leading dot disappears. */
  function JoinPaths(base: seq<Component>, relative: seq<Component>): (joined: seq<Component>)
    ensures (forall component <- relative :: !component.RootDir? && !component.CurDir?) ==> joined == base + relative
    ensures [RootDir] <= relative ==> joined == relative
    ensures base != [] && [CurDir] <= relative ==> joined == base + relative[1..]
  {
    if relative != [] && relative[0].RootDir? then relative
    else if base != [] && relative != [] && relative[0].CurDir? then base + relative[1..]
    else base + relative
  }

  /** Below the root of an absolute path there are neither further roots nor dots. */
  lemma BelowIsPlain(path: string, root: string, below: seq<Component>)
    requires IsAbsolute(path) && IsAbsolute(root) && Components(path) == Components(root) + below
    ensures forall component <- below :: !component.RootDir? && !component.CurDir?
  {
    AbsoluteExact(path);
    AbsoluteExact(root);
    forall i | 0 <= i < |below| ensures !below[i].RootDir? && !below[i].CurDir? {
      assert below[i] == Components(path)[|Components(root)| + i];
      assert Components(path)[|Components(root)| + i] == Named(Names(Pieces(path)))[|Components(root)| + i - 1];
    }
  }
}
