/** The debug `Pane` of `worlds/world/system/Tweakpane.ts`: a Tweakpane
    pane titled "Debug", hidden unless the URL hash is `#debug`, whose
    `addFolder` returns the first existing folder with the requested title
    instead of creating a second one. Children are opaque apart from whether
    they are folders and their titles. */
module Tweakpane {
  import opened Wrappers

  /** A child of the pane: a folder with its title, or any other blade
      (binding, button, separator). */
  datatype Child = Folder(id: nat, title: string) | Blade(id: nat)

  /** The argument of `addFolder`: a bare title or a `{ title }` config. */
  datatype FolderArg = Named(name: string) | Config(title: string)

  const PaneTitle: string := "Debug"
  const DebugHash: string := "#debug"

  /** `typeof folder === 'string' ? folder : folder.title`. */
  function TitleOf(arg: FolderArg): (t: string)
    ensures arg.Named? ==> t == arg.name
    ensures arg.Config? ==> t == arg.title
  {
    match arg
    case Named(n) => n
    case Config(t) => t
  }

  /** `children.find(child => child instanceof FolderApi && child.title === title)`. */
  function FindFolder(children: seq<Child>, title: string): Option<Child>
  {
    if children == [] then None
    else if children[0].Folder? && children[0].title == title then Some(children[0])
    else FindFolder(children[1..], title)
  }

  /** `child` is a folder titled `title`. */
  predicate IsFolderTitled(child: Child, title: string)
  {
    child.Folder? && child.title == title
  }

  /** `find` answers the first folder child with the title, and nothing
      exactly when there is none. */
  lemma {:induction false} FindFolderSpec(children: seq<Child>, title: string)
    ensures FindFolder(children, title).None? <==>
      forall i :: 0 <= i < |children| ==> !IsFolderTitled(children[i], title)
    ensures FindFolder(children, title).Some? ==>
      exists i :: 0 <= i < |children| && children[i] == FindFolder(children, title).value
        && IsFolderTitled(children[i], title)
        && forall j :: 0 <= j < i ==> !IsFolderTitled(children[j], title)
  {
    if children != [] && !IsFolderTitled(children[0], title) {
      var rest := children[1..];
      FindFolderSpec(rest, title);
      assert forall i :: 0 < i < |children| ==> children[i] == rest[i - 1];
      if FindFolder(rest, title).Some? {
        var k :| 0 <= k < |rest| && rest[k] == FindFolder(rest, title).value
          && IsFolderTitled(rest[k], title)
          && forall j :: 0 <= j < k ==> !IsFolderTitled(rest[j], title);
        assert children[k + 1] == rest[k];
        assert forall j :: 0 < j < k + 1 ==> children[j] == rest[j - 1];
      }
    } else if children != [] {
      assert children[0] == FindFolder(children, title).value;
    }
  }

  /** After a folder is appended to children holding no folder with its
      title, `find` answers that folder: a second `addFolder` with the same
      title returns it. */
  lemma {:induction false} FindAppendedFolder(children: seq<Child>, f: Child)
    requires f.Folder?
    requires FindFolder(children, f.title).None?
    ensures FindFolder(children + [f], f.title) == Some(f)
  {
    if children == [] {
      assert [f][0] == f;
    } else {
      assert (children + [f])[0] == children[0];
      assert (children + [f])[1..] == children[1..] + [f];
      FindAppendedFolder(children[1..], f);
    }
  }

  /** Appending a child leaves an earlier answer of `find` unchanged. */
  lemma {:induction false} FindKeptByAppend(children: seq<Child>, c: Child, title: string)
    requires FindFolder(children, title).Some?
    ensures FindFolder(children + [c], title) == FindFolder(children, title)
  {
    assert (children + [c])[0] == children[0];
    if !IsFolderTitled(children[0], title) {
      assert (children + [c])[1..] == children[1..] + [c];
      FindKeptByAppend(children[1..], c, title);
    }
  }

  class Pane {
    var children: seq<Child>
    var hidden: bool
    const title: string
    /** The id the next child gets; ids are never reused. */
    var nextId: nat

    ghost predicate Valid()
      reads this
    {
      forall i :: 0 <= i < |children| ==> children[i].id < nextId
    }

    /** `new Pane()` with the page's `window.location.hash`. */
    constructor (hash: string)
      ensures Valid()
      ensures title == PaneTitle && children == []
      ensures hidden <==> hash != DebugHash
    {
      title := PaneTitle;
      children := [];
      hidden := hash != DebugHash;
      nextId := 0;
    }

    /** `addFolder(folder)`: the first folder child with the title when
        there is one, with no child added; otherwise exactly one new folder
        with that title, appended by the base class. */
    method AddFolder(arg: FolderArg) returns (f: Child)
      requires Valid()
      modifies this`children, this`nextId
      ensures Valid()
      ensures IsFolderTitled(f, TitleOf(arg))
      ensures FindFolder(old(children), TitleOf(arg)).Some? ==>
        f == FindFolder(old(children), TitleOf(arg)).value && children == old(children)
      ensures FindFolder(old(children), TitleOf(arg)).None? ==>
        && children == old(children) + [f]
        && forall i :: 0 <= i < |old(children)| ==> old(children)[i].id != f.id
      ensures FindFolder(children, TitleOf(arg)) == Some(f)
    {
      var t := TitleOf(arg);
      var existing := FindFolder(children, t);
      FindFolderSpec(children, t);
      if existing.Some? {
        return existing.value;
      }
      f := Folder(nextId, t);
      nextId := nextId + 1;
      children := children + [f];
      FindAppendedFolder(old(children), f);
    }

    /** Any other child the base class adds (`addBinding`, `addButton`,
        ...); it never changes what `addFolder` finds for a title already
        present. */
    method AddBlade() returns (b: Child)
      requires Valid()
      modifies this`children, this`nextId
      ensures Valid()
      ensures b.Blade? && children == old(children) + [b]
      ensures forall t :: FindFolder(old(children), t).Some? ==> FindFolder(children, t) == FindFolder(old(children), t)
    {
      b := Blade(nextId);
      nextId := nextId + 1;
      children := children + [b];
      forall t | FindFolder(old(children), t).Some? ensures FindFolder(children, t) == FindFolder(old(children), t) {
        FindKeptByAppend(old(children), b, t);
      }
    }
  }
}
