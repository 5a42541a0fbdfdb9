/**
 Opening a cgroup directory beneath another, by one `openat2` call or component by component.

 Kernel assumptions, from path_resolution(7), openat(2) and openat2(2): looking a component
 up needs search permission on the directory it is looked up in; opening the result for
 reading needs read permission on it; O_DIRECTORY refuses everything else; a symbolic link is
 never followed, because of O_NOFOLLOW at the end of a path and RESOLVE_NO_SYMLINKS before
 it; RESOLVE_BENEATH refuses to climb above the start. The tree does not change meanwhile.
 */
module Lookup {
  import opened Wrappers
  import opened Text
  import opened Paths

  datatype Node =
    | Directory(entries: map<string, Node>, readable: bool, searchable: bool)
    | File
    | Symlink(target: string)

  /** A directory's place: the names that lead to it from the base. */
  type Location = seq<string>

  datatype Errno = ENOENT | ENOTDIR | ELOOP | EACCES | EXDEV | EINVAL

  /** The node at a location. Only directories have anything below them. */
  function At(base: Node, location: Location): Option<Node>
    decreases |location|
  {
    if location == [] then Some(base)
    else if base.Directory? && location[0] in base.entries then At(base.entries[location[0]], location[1..])
    else None
  }

  predicate IsSearchable(base: Node, location: Location) {
    At(base, location).Some? && At(base, location).value.Directory? && At(base, location).value.searchable
  }

  predicate IsReadable(base: Node, location: Location) {
    At(base, location).Some? && At(base, location).value.Directory? && At(base, location).value.readable
  }

  // ---------- the kernel ----------

  function OpenHere(base: Node, at: Location): Result<Location, Errno> {
    match At(base, at)
    case None => Err(ENOENT)
    case Some(Directory(_, readable, _)) => if readable then Ok(at) else Err(EACCES)
    case Some(_) => Err(ENOTDIR)
  }

  /** One path resolution from `at`, ending in an open. */
  function Resolve(base: Node, at: Location, pieces: seq<string>): Result<Location, Errno>
    decreases |pieces|
  {
    if pieces == [] then OpenHere(base, at)
    else
      match At(base, at)
      case None => Err(ENOENT)
      case Some(File) => Err(ENOTDIR)
      case Some(Symlink(_)) => Err(ELOOP)
      case Some(Directory(entries, _, searchable)) =>
        if !searchable then Err(EACCES)
        else if pieces[0] == "." then Resolve(base, at, pieces[1..])
        else if pieces[0] == ".." then
          if at == [] then Err(EXDEV) else Resolve(base, at[..|at| - 1], pieces[1..])
        else if pieces[0] !in entries then Err(ENOENT)
        else Resolve(base, at + [pieces[0]], pieces[1..])
  }

  // ---------- the two ways ----------

  function OpenOnce(base: Node, path: string): Result<Location, Errno> {
    Resolve(base, [], Pieces(path))
  }

  function ComponentText(component: Component): string {
    match component
    case RootDir => "/"
    case CurDir => "."
    case ParentDir => ".."
    case Normal(name) => name
  }

  function OpenEach(base: Node, at: Location, components: seq<Component>): Result<Location, Errno>
    decreases |components|
  {
    if components == [] then Ok(at)
    else
      var next :- Resolve(base, at, [ComponentText(components[0])]);
      OpenEach(base, next, components[1..])
  }

  function OpenComponents(base: Node, path: string): Result<Location, Errno> {
    var start :- Resolve(base, [], ["."]);
    OpenEach(base, start, Components(path))
  }

  /** `open_directory`: the check first, then the system call, or its replacement where it is missing. */
  function OpenDirectory(base: Node, path: string, hasOpenat2: bool): Result<Location, Errno> {
    if !StaysBeneath(Components(path)) then Err(EINVAL)
    else
      var relative := if path == "" then "." else path;
      if hasOpenat2 then OpenOnce(base, relative) else OpenComponents(base, relative)
  }

  // ---------- what each of them opens ----------

  lemma {:induction false} AtChild(base: Node, at: Location, name: string)
    requires At(base, at).Some?
    ensures var node := At(base, at).value;
            At(base, at + [name]) ==
            if node.Directory? && name in node.entries then Some(node.entries[name]) else None
    decreases |at|
  {
    if at == [] {
      assert [] + [name] == [name] && [name][1..] == [];
    } else {
      AtChild(base.entries[at[0]], at[1..], name);
      assert (at + [name])[1..] == at[1..] + [name];
    }
  }

  predicate SearchableAlong(base: Node, at: Location, names: seq<string>) {
    forall i :: 0 <= i < |names| ==> IsSearchable(base, at + names[..i])
  }

  lemma SearchableStep(base: Node, at: Location, names: seq<string>)
    requires names != []
    ensures SearchableAlong(base, at, names) <==>
            IsSearchable(base, at) && SearchableAlong(base, at + [names[0]], names[1..])
  {
    assert at + names[..0] == at;
    assert forall i :: 0 < i < |names| ==> at + names[..i] == at + [names[0]] + names[1..][..i - 1];
    assert forall i :: 0 <= i < |names| - 1 ==> at + [names[0]] + names[1..][..i] == at + names[..i + 1];
  }

  predicate EndsInDot(pieces: seq<string>) {
    pieces != [] && pieces[|pieces| - 1] == "."
  }

  /** What `Resolve` opens: searchable directories all the way to a readable one, searchable too if a dot is looked up in it. */
  predicate Opens(base: Node, at: Location, pieces: seq<string>, found: Location) {
    && found == at + Names(pieces)
    && SearchableAlong(base, at, Names(pieces))
    && IsReadable(base, found)
    && (EndsInDot(pieces) ==> IsSearchable(base, found))
  }

  lemma {:induction false} ResolveExact(base: Node, at: Location, pieces: seq<string>, found: Location)
    requires ".." !in pieces && At(base, at).Some?
    ensures Resolve(base, at, pieces) == Ok(found) <==> Opens(base, at, pieces, found)
    decreases |pieces|
  {
    if pieces == [] {
      assert at + [] == at;
    } else {
      var rest := pieces[1..];
      assert pieces == [pieces[0]] + rest;
      if pieces[0] == "." {
        ResolveExact(base, at, rest, found);
        OpensDot(base, at, pieces, found);
      } else {
        AtChild(base, at, pieces[0]);
        OpensName(base, at, pieces, found);
        if At(base, at + [pieces[0]]).Some? {
          ResolveExact(base, at + [pieces[0]], rest, found);
        }
      }
    }
  }

  lemma OpensDot(base: Node, at: Location, pieces: seq<string>, found: Location)
    requires pieces != [] && pieces[0] == "."
    ensures Opens(base, at, pieces, found) <==> IsSearchable(base, at) && Opens(base, at, pieces[1..], found)
  {
    AllDotsEndInDot(pieces[1..]);
    assert Names(pieces) == Names(pieces[1..]);
    assert |pieces| > 1 ==> pieces[|pieces| - 1] == pieces[1..][|pieces| - 2];
    if Names(pieces) == [] {
      assert at + [] == at;
    } else {
      SearchableStep(base, at, Names(pieces));
    }
  }

  lemma OpensName(base: Node, at: Location, pieces: seq<string>, found: Location)
    requires pieces != [] && pieces[0] != "."
    ensures Opens(base, at, pieces, found) <==>
            && IsSearchable(base, at)
            && At(base, at + [pieces[0]]).Some?
            && Opens(base, at + [pieces[0]], pieces[1..], found)
  {
    var names := Names(pieces);
    assert names[1..] == Names(pieces[1..]);
    SearchableStep(base, at, names);
    assert at + names == at + [pieces[0]] + names[1..];
    if At(base, at + [pieces[0]]).None? {
      NothingBelow(base, at + [pieces[0]], names[1..]);
    }
  }

  lemma {:induction false} AllDotsEndInDot(pieces: seq<string>)
    ensures Names(pieces) == [] && pieces != [] ==> EndsInDot(pieces)
  {
    if |pieces| > 1 {
      AllDotsEndInDot(pieces[1..]);
    }
  }

  lemma {:induction false} NothingBelow(base: Node, at: Location, names: seq<string>)
    requires At(base, at).None?
    ensures At(base, at + names).None?
    decreases |at|
  {
    if base.Directory? && at[0] in base.entries {
      NothingBelow(base.entries[at[0]], at[1..], names);
      assert (at + names)[1..] == at[1..] + names;
    }
  }

  predicate ReadableAlong(base: Node, at: Location, names: seq<string>) {
    forall i :: 0 < i <= |names| ==> IsReadable(base, at + names[..i])
  }

  lemma ReadableStep(base: Node, at: Location, names: seq<string>)
    requires names != []
    ensures ReadableAlong(base, at, names) <==>
            IsReadable(base, at + [names[0]]) && ReadableAlong(base, at + [names[0]], names[1..])
  {
    assert at + names[..1] == at + [names[0]];
    assert forall i :: 1 < i <= |names| ==> at + names[..i] == at + [names[0]] + names[1..][..i - 1];
    assert forall i :: 0 < i <= |names| - 1 ==> at + [names[0]] + names[1..][..i] == at + names[..i + 1];
  }

  lemma {:induction false} OpenEachExact(base: Node, at: Location, names: seq<string>, found: Location)
    requires "." !in names && ".." !in names && At(base, at).Some?
    ensures OpenEach(base, at, Normals(names)) == Ok(found) <==>
            found == at + names && SearchableAlong(base, at, names) && ReadableAlong(base, at, names)
    decreases |names|
  {
    if names == [] {
      assert at + [] == at;
    } else {
      var next := at + [names[0]];
      assert Normals(names)[1..] == Normals(names[1..]);
      OneNameExact(base, at, names[0]);
      assert at + names == next + names[1..];
      SearchableStep(base, at, names);
      ReadableStep(base, at, names);
      if Resolve(base, at, [names[0]]).Ok? {
        OpenEachExact(base, next, names[1..], found);
      }
    }
  }

  lemma OneNameExact(base: Node, at: Location, name: string)
    requires name != "." && name != ".." && At(base, at).Some?
    ensures var resolved := Resolve(base, at, [name]);
            if IsSearchable(base, at) && IsReadable(base, at + [name]) then resolved == Ok(at + [name]) else resolved.Err?
  {
    AtChild(base, at, name);
    assert [name][1..] == [];
  }

  /** Every directory passed through on the way, the base among them, can be searched. */
  predicate CanSearchTheWay(base: Node, names: seq<string>) {
    forall i :: 0 <= i < |names| ==> IsSearchable(base, names[..i])
  }

  /** Every directory passed through on the way, the base among them, can be read. */
  predicate CanReadTheWay(base: Node, names: seq<string>) {
    forall i :: 0 <= i < |names| ==> IsReadable(base, names[..i])
  }

  lemma FromTheBase(base: Node, names: seq<string>)
    ensures SearchableAlong(base, [], names) <==> CanSearchTheWay(base, names)
    ensures IsReadable(base, []) && ReadableAlong(base, [], names) <==> CanReadTheWay(base, names) && IsReadable(base, names)
  {
    assert forall i :: 0 <= i <= |names| ==> [] + names[..i] == names[..i];
    assert names[..|names|] == names && names[..0] == [];
  }

  /** The component walk opens what it names exactly when all directories on the way can be searched and read. */
  lemma OpenComponentsExact(base: Node, path: string, found: Location)
    requires StaysBeneath(Components(path))
    ensures var names := Names(Pieces(path));
            OpenComponents(base, path) == Ok(found) <==>
            && found == names
            && IsSearchable(base, []) && CanSearchTheWay(base, names)
            && CanReadTheWay(base, names) && IsReadable(base, names)
  {
    var names := Names(Pieces(path));
    ComponentsExact(path);
    FromTheBase(base, names);
    OpenEachExact(base, [], names, found);
    assert [] + names == names;
    OpensItself(base);
    if Components(path) != Normals(names) {
      assert Components(path)[1..] == Normals(names);
    }
  }

  lemma OpensItself(base: Node)
    ensures var start := Resolve(base, [], ["."]);
            if IsSearchable(base, []) && IsReadable(base, []) then start == Ok([]) else start.Err?
  {
    assert ["."][1..] == [];
  }

  /** The single call needs to search the way and to read only its end. */
  lemma OpenOnceExact(base: Node, path: string, found: Location)
    requires StaysBeneath(Components(path))
    ensures var names := Names(Pieces(path));
            OpenOnce(base, path) == Ok(found) <==>
            && found == names
            && CanSearchTheWay(base, names)
            && IsReadable(base, names)
            && (EndsInDot(Pieces(path)) ==> IsSearchable(base, names))
  {
    var names := Names(Pieces(path));
    ComponentsExact(path);
    FromTheBase(base, names);
    ResolveExact(base, [], Pieces(path), found);
    assert [] + names == names;
  }

  // ---------- main results ----------

  /**
   On every tree and every accepted path, the two ways open the same directory, and differ
   only in two permissions: the component walk opens every directory on the way and so must
   be able to read it; the single call looks a final dot up in the directory it opens and so
   must be able to search it.
   */
  lemma BackendsDifferInPermissionsOnly(base: Node, path: string, found: Location)
    requires StaysBeneath(Components(path)) && path != ""
    ensures var names := Names(Pieces(path));
            (OpenOnce(base, path) == Ok(found) && CanReadTheWay(base, names)) <==>
            (OpenComponents(base, path) == Ok(found) && (EndsInDot(Pieces(path)) ==> IsSearchable(base, names)))
  {
    var names := Names(Pieces(path));
    OpenOnceExact(base, path, found);
    OpenComponentsExact(base, path, found);
    ComponentsExact(path);
    PathHasPieces(path);
    AllDotsEndInDot(Pieces(path));
    assert names != [] ==> names[..0] == [];
  }

  /**
   The exact condition for agreement, on any tree and accepted path: where the base and the
   way can be searched and the end can be read, either both permissions are there or neither.
   */
  lemma BackendsAgreeExactly(base: Node, path: string)
    requires StaysBeneath(Components(path)) && path != ""
    ensures var names, dot := Names(Pieces(path)), EndsInDot(Pieces(path));
            (forall found :: OpenOnce(base, path) == Ok(found) <==> OpenComponents(base, path) == Ok(found)) <==>
            (IsSearchable(base, []) && CanSearchTheWay(base, names) && IsReadable(base, names) ==>
               (CanReadTheWay(base, names) <==> (dot ==> IsSearchable(base, names))))
  {
    var names := Names(Pieces(path));
    forall found
      ensures OpenOnce(base, path) == Ok(found) <==>
              && found == names && CanSearchTheWay(base, names) && IsReadable(base, names)
              && (EndsInDot(Pieces(path)) ==> IsSearchable(base, names))
      ensures OpenComponents(base, path) == Ok(found) <==>
              && found == names && IsSearchable(base, []) && CanSearchTheWay(base, names)
              && CanReadTheWay(base, names) && IsReadable(base, names)
    {
      OpenOnceExact(base, path, found);
      OpenComponentsExact(base, path, found);
    }
    ComponentsExact(path);
    PathHasPieces(path);
    AllDotsEndInDot(Pieces(path));
    assert names != [] ==> names[..0] == [];
    assert OpenOnce(base, path) == Ok(names) <==> OpenOnce(base, path).Ok?;
  }

  lemma {:induction false} PathHasPieces(path: string)
    requires path != "" && !IsAbsolute(path)
    ensures Pieces(path) != []
  {
    match Find(path, '/')
    case None =>
    case Some(i) => assert path[..i] != [];
  }

  /** Every directory of the tree can be read and searched, as for a privileged caller. */
  ghost predicate IsOpenToAll(base: Node) {
    forall location: Location ::
      At(base, location).Some? && At(base, location).value.Directory? ==>
        IsReadable(base, location) && IsSearchable(base, location)
  }

  /** What each way of opening needs: to search the way and read its end, and the permissions they differ in. */
  predicate CanOpen(base: Node, path: string, hasOpenat2: bool) {
    var pieces := if path == "" then ["."] else Pieces(path);
    var names := Names(pieces);
    && CanSearchTheWay(base, names)
    && IsReadable(base, names)
    && (if hasOpenat2 then EndsInDot(pieces) ==> IsSearchable(base, names)
        else IsSearchable(base, []) && CanReadTheWay(base, names))
  }

  /**
   On every tree, `open_directory` succeeds exactly for the relative paths without a `..` that
   can be opened, and what it opens is the directory that the names of the path denote.
   */
  lemma OpenDirectoryExact(base: Node, path: string, hasOpenat2: bool, found: Location)
    ensures OpenDirectory(base, path, hasOpenat2) == Ok(found) <==>
            && (path == "" || path[0] != '/') && ".." !in Pieces(path)
            && found == Names(Pieces(path))
            && CanOpen(base, path, hasOpenat2)
  {
    ComponentsExact(path);
    DotIsEmpty();
    if StaysBeneath(Components(path)) {
      var relative := if path == "" then "." else path;
      PathHasPieces(relative);
      OpenOnceExact(base, relative, found);
      OpenComponentsExact(base, relative, found);
    }
  }

  /** On a tree without permission obstacles: exactly if the names denote a directory. */
  lemma OpenTreeExact(base: Node, path: string, hasOpenat2: bool, found: Location)
    requires IsOpenToAll(base)
    ensures OpenDirectory(base, path, hasOpenat2) == Ok(found) <==>
            && (path == "" || path[0] != '/') && ".." !in Pieces(path)
            && found == Names(Pieces(path))
            && At(base, found).Some? && At(base, found).value.Directory?
  {
    OpenDirectoryExact(base, path, hasOpenat2, found);
    DotIsEmpty();
    var names := Names(Pieces(path));
    if At(base, names).Some? && At(base, names).value.Directory? {
      assert IsReadable(base, names) && IsSearchable(base, names);
      forall i | 0 <= i <= |names| ensures IsSearchable(base, names[..i]) && IsReadable(base, names[..i]) {
        PrefixIsDirectory(base, names, i);
      }
      assert names[..0] == [];
    }
  }

  /** What leads to a directory is directories. */
  lemma {:induction false} PrefixIsDirectory(base: Node, names: Location, i: nat)
    requires i <= |names| && At(base, names).Some? && At(base, names).value.Directory?
    ensures At(base, names[..i]).Some? && At(base, names[..i]).value.Directory?
    decreases |names|
  {
    if i > 0 {
      PrefixIsDirectory(base.entries[names[0]], names[1..], i - 1);
      assert names[..i][1..] == names[1..][..i - 1];
    }
  }

  /**
   Where permissions are no obstacle, the two ways agree on every path there is: they succeed
   together, on the same directory, which lies at the path's names below the base.
   */
  lemma BackendsAgree(base: Node, path: string, found: Location)
    requires IsOpenToAll(base) && base.Directory?
    ensures OpenDirectory(base, path, true) == Ok(found) <==> OpenDirectory(base, path, false) == Ok(found)
    ensures OpenDirectory(base, path, true) == Ok(found) ==>
              found == Names(Pieces(path)) && At(base, found).Some? && At(base, found).value.Directory?
  {
    if StaysBeneath(Components(path)) {
      var relative := if path == "" then "." else path;
      DotIsEmpty();
      var names := Names(Pieces(relative));
      OpenOnceExact(base, relative, found);
      OpenComponentsExact(base, relative, found);
      BackendsDifferInPermissionsOnly(base, relative, found);
      if OpenOnce(base, relative) == Ok(found) {
        forall i | 0 <= i < |names| ensures IsReadable(base, names[..i]) {
          assert IsSearchable(base, names[..i]);
        }
      }
      assert At(base, []) == Some(base);
    }
  }

  lemma DotIsEmpty()
    ensures Pieces("") == [] && Pieces(".") == ["."] && Names(["."]) == []
    ensures StaysBeneath(Components("."))
  {
    assert Split("", '/') == [""] && [""][1..] == [];
    assert Split(".", '/') == ["."] && ["."][1..] == [];
  }

  /** A parent component or an absolute path is refused before the kernel is asked. */
  lemma TraversalIsRejected(base: Node, path: string, hasOpenat2: bool)
    ensures IsAbsolute(path) || ".." in Pieces(path) ==> OpenDirectory(base, path, hasOpenat2) == Err(EINVAL)
    ensures OpenDirectory(base, path, hasOpenat2) != Err(EXDEV)
  {
    ComponentsExact(path);
    DotIsEmpty();
    if StaysBeneath(Components(path)) {
      var relative := if path == "" then "." else path;
      ComponentsExact(relative);
      NeverClimbs(base, [], Pieces(relative));
      NeverClimbs(base, [], ["."]);
      var start := Resolve(base, [], ["."]);
      if start.Ok? {
        WalkNeverClimbs(base, start.value, Components(relative));
      }
    }
  }

  lemma {:induction false} NeverClimbs(base: Node, at: Location, pieces: seq<string>)
    requires ".." !in pieces
    ensures Resolve(base, at, pieces) != Err(EXDEV)
    decreases |pieces|
  {
    if pieces != [] {
      NeverClimbs(base, at, pieces[1..]);
      NeverClimbs(base, at + [pieces[0]], pieces[1..]);
    }
  }

  lemma {:induction false} WalkNeverClimbs(base: Node, at: Location, components: seq<Component>)
    requires StaysBeneath(components)
    requires forall component <- components :: component.Normal? ==> component.name != ".."
    ensures OpenEach(base, at, components) != Err(EXDEV)
    decreases |components|
  {
    if components != [] {
      NeverClimbs(base, at, [ComponentText(components[0])]);
      var next := Resolve(base, at, [ComponentText(components[0])]);
      if next.Ok? {
        WalkNeverClimbs(base, next.value, components[1..]);
      }
    }
  }

  /** A symbolic link anywhere on the path, first, middle or last, makes both ways fail. */
  lemma SymlinksAreNeverFollowed(base: Node, path: string, hasOpenat2: bool, link: nat)
    requires link <= |Names(Pieces(path))|
    requires At(base, Names(Pieces(path))[..link]).Some? && At(base, Names(Pieces(path))[..link]).value.Symlink?
    ensures OpenDirectory(base, path, hasOpenat2).Err?
  {
    var outcome := OpenDirectory(base, path, hasOpenat2);
    var names := Names(Pieces(path));
    assert link == |names| ==> names[..link] == names;
    if outcome.Ok? {
      DotIsEmpty();
      var relative := if path == "" then "." else path;
      OpenOnceExact(base, relative, outcome.value);
      OpenComponentsExact(base, relative, outcome.value);
    }
  }

  predicate IsName(name: string) {
    name != "" && name != "." && name != ".." && !Contains(name, '/')
  }

  lemma {:induction false} NamesAreThemselves(names: seq<string>)
    requires forall name <- names :: IsName(name)
    ensures NonEmpty(names) == Names(names) == names
  {
    if names != [] {
      NamesAreThemselves(names[1..]);
      assert names[0] in names && names == [names[0]] + names[1..];
    }
  }

  lemma TwoNames(first: string, last: string)
    requires IsName(first) && IsName(last)
    ensures Pieces(first + "/" + last) == Names([first, last]) == [first, last]
    ensures StaysBeneath(Components(first + "/" + last))
  {
    var names := [first, last];
    SplitJoin(names, '/');
    NamesAreThemselves(names);
    assert names[1..] == [last];
    assert Join(names, '/') == first + "/" + last;
    assert first + "/" + last != "" && (first + "/" + last)[0] == first[0];
    ComponentsExact(first + "/" + last);
  }

  /**
   The two ways do differ: with a directory on the way that can be searched but not read, the
   single call opens what is below it and the component walk does not.
   */
  lemma UnreadableDirectorySeparates(base: Node, first: string, last: string)
    requires IsName(first) && IsName(last)
    requires IsSearchable(base, []) && IsSearchable(base, [first]) && !IsReadable(base, [first])
    requires IsReadable(base, [first, last])
    ensures OpenDirectory(base, first + "/" + last, true) == Ok([first, last])
    ensures OpenDirectory(base, first + "/" + last, false).Err?
  {
    var path, names := first + "/" + last, [first, last];
    TwoNames(first, last);
    assert names[..0] == [] && names[..1] == [first];
    OpenOnceExact(base, path, names);
    var walked := OpenComponents(base, path);
    OpenComponentsExact(base, path, if walked.Ok? then walked.value else []);
  }

  lemma NameAndDot(name: string)
    requires IsName(name)
    ensures Pieces(name + "/.") == [name, "."] && Names([name, "."]) == [name]
    ensures StaysBeneath(Components(name + "/."))
  {
    var pieces := [name, "."];
    assert !Contains(".", '/');
    SplitJoin(pieces, '/');
    assert Join(pieces, '/') == name + "/" + "." == name + "/.";
    assert pieces[1..] == ["."] && ["."][1..] == [];
    assert NonEmpty(["."]) == ["."] && Names(["."]) == [];
    assert NonEmpty(pieces) == [name] + NonEmpty(pieces[1..]) && Names(pieces) == [name] + Names(pieces[1..]);
    assert (name + "/.")[0] == name[0];
    ComponentsExact(name + "/.");
  }

  /**
   And the other way round: at a path that ends in a dot, a directory that can be read but not
   searched is opened by the component walk and not by the single call.
   */
  lemma UnsearchableDirectorySeparates(base: Node, name: string)
    requires IsName(name)
    requires IsSearchable(base, []) && IsReadable(base, [])
    requires IsReadable(base, [name]) && !IsSearchable(base, [name])
    ensures OpenDirectory(base, name + "/.", true).Err?
    ensures OpenDirectory(base, name + "/.", false) == Ok([name])
  {
    var path := name + "/.";
    NameAndDot(name);
    assert [name][..0] == [];
    OpenComponentsExact(base, path, [name]);
    var outcome := OpenOnce(base, path);
    OpenOnceExact(base, path, if outcome.Ok? then outcome.value else []);
  }
}
