/**
 Vendoring a pack: the whole tree is copied into a staging directory, the tree it
 replaces is moved aside, and the staging directory is renamed into place. Any step may
 fail; the disk keeps every state it passed through.
 */
module Vendor {
  import opened Wrappers

  /** The directories a pack's install touches. */
  datatype Slot = Dest | Staging | Previous | Removed

  /** A tree: the content of each file by its relative path. */
  type Tree = map<string, string>

  type Slots = map<Slot, Tree>

  datatype PackError =
    | Read
    | Write(slot: Slot)
    | Cleanup(cause: PackError, cleanup: PackError)

  type Outcome = Result<(), PackError>

  function WithCleanup(cause: PackError, cleanup: Outcome): PackError {
    match cleanup
    case Ok(_) => cause
    case Err(error) => Cleanup(cause, error)
  }

  /** A tree moved into place, and whether the tree it replaced is still set aside. */
  datatype Swap = Swap(dest: Slot, aside: Option<Slot>)

  function TreeAt(slots: Slots, slot: Slot): Option<Tree> {
    if slot in slots then Some(slots[slot]) else None
  }

  /** Every state from the `from`th on shows the destination as it was, absent, or wholly new. */
  ghost predicate NeverTorn(passed: seq<Slots>, from: nat, was: Option<Tree>, src: Tree) {
    forall i :: from <= i < |passed| ==> NotTorn(passed[i], was, src)
  }

  predicate NotTorn(slots: Slots, was: Option<Tree>, src: Tree) {
    TreeAt(slots, Dest) == was || TreeAt(slots, Dest) == None || TreeAt(slots, Dest) == Some(src)
  }

  /** The states passed since `before` differ from `rest` in `slot` alone. */
  ghost predicate Touched(before: seq<Slots>, after: seq<Slots>, slot: Slot, rest: Slots) {
    before <= after && forall i :: |before| <= i < |after| ==> after[i] - {slot} == rest
  }

  lemma {:induction false} SlotsApart(slots: Slots, slot: Slot, other: Slot)
    requires slot != other
    ensures TreeAt(slots, other) == TreeAt(slots - {slot}, other)
  {
  }

  lemma {:induction false} StagingTearsNothing(before: seq<Slots>, after: seq<Slots>, from: nat, rest: Slots, was: Option<Tree>, src: Tree)
    requires Touched(before, after, Staging, rest) && from <= |before|
    requires NeverTorn(before, from, was, src) && NotTorn(rest, was, src)
    ensures NeverTorn(after, from, was, src)
  {
    forall i | from <= i < |after| ensures NotTorn(after[i], was, src) {
      if i >= |before| {
        SlotsApart(after[i], Staging, Dest);
      } else {
        assert after[i] == before[i];
      }
    }
  }

  class Disk {
    /** Whether the host may refuse a step that could be done. */
    const flaky: bool
    var slots: Slots
    /** Every state the slots were in, oldest first. */
    ghost var passed: seq<Slots>

    constructor (slots: Slots, flaky: bool)
      ensures this.slots == slots && passed == [slots] && this.flaky == flaky
    {
      this.flaky := flaky;
      this.slots := slots;
      passed := [slots];
    }

    method Become(next: Slots)
      modifies this
      ensures slots == next && passed == old(passed) + [next]
    {
      slots := next;
      passed := passed + [next];
    }

    /** Renames a directory onto a free name; the host may refuse. */
    method Rename(src: Slot, dst: Slot) returns (r: Outcome)
      modifies this
      ensures r.Ok? ==> src in old(slots) && dst !in old(slots)
      ensures r.Ok? ==> slots == (old(slots) - {src})[dst := old(slots)[src]] && passed == old(passed) + [slots]
      ensures r.Err? ==> slots == old(slots) && passed == old(passed) && !r.error.Cleanup?
      ensures !flaky && src in old(slots) && dst !in old(slots) ==> r.Ok?
    {
      var refused: bool := *;
      if (flaky && refused) || src !in slots || dst in slots {
        return Err(Write(dst));
      }
      Become((slots - {src})[dst := slots[src]]);
      return Ok(());
    }

    /** Removes the tree at `slot` when there is one, part by part; a failure leaves any part of it. */
    method Discard(slot: Slot) returns (r: Outcome)
      modifies this
      ensures r.Ok? ==> slots == old(slots) - {slot}
      ensures r.Err? ==> slot in old(slots) && slots.Keys == old(slots).Keys && slots - {slot} == old(slots) - {slot}
      ensures slot !in old(slots) ==> slots == old(slots) && passed == old(passed)
      ensures Touched(old(passed), passed, slot, old(slots) - {slot})
      ensures r.Err? ==> r.error == Write(slot)
      ensures !flaky ==> r.Ok?
    {
      if slot !in slots {
        return Ok(());
      }
      var left: Tree := *;
      Become(slots[slot := left]);
      assert slots - {slot} == old(slots) - {slot};
      var stopped: bool := *;
      if flaky && stopped {
        return Err(Write(slot));
      }
      Become(slots - {slot});
      return Ok(());
    }

    /** Copies one file into the staging directory, made when it is missing. */
    method CopyFile(path: string, content: string) returns (r: Outcome)
      modifies this
      ensures slots - {Staging} == old(slots) - {Staging}
      ensures Touched(old(passed), passed, Staging, old(slots) - {Staging})
      ensures r.Ok? ==> Staging in slots
      ensures r.Ok? ==> slots[Staging] == (if Staging in old(slots) then old(slots)[Staging] else map[])[path := content]
      ensures r.Err? ==> !r.error.Cleanup?
      ensures !flaky ==> r.Ok?
    {
      var sofar := if Staging in slots then slots[Staging] else map[];
      var refused: bool := *;
      if flaky && refused {
        return Err(Write(Staging));
      }
      Become(slots[Staging := sofar]);
      assert slots - {Staging} == old(slots) - {Staging};
      var torn: bool := *;
      if flaky && torn {
        var part: string := *;
        Become(slots[Staging := sofar[path := part]]);
        return Err(Write(Staging));
      }
      Become(slots[Staging := sofar[path := content]]);
      return Ok(());
    }

    /** Copies `files` of `src` into the staging directory, made with the first of them. */
    method VendorTree(src: Tree, files: seq<string>) returns (r: Outcome)
      requires Staging !in slots && forall f :: f in files <==> f in src
      modifies this
      ensures slots - {Staging} == old(slots)
      ensures Touched(old(passed), passed, Staging, old(slots))
      ensures r.Ok? && files != [] ==> Staging in slots && slots[Staging] == src
      ensures r.Ok? && files == [] ==> slots == old(slots)
      ensures r.Err? ==> !r.error.Cleanup?
      ensures !flaky ==> r.Ok?
    {
      assert slots - {Staging} == slots;
      var unreadable: bool := *;
      if flaky && unreadable {
        return Err(Read);
      }
      for k := 0 to |files|
        invariant slots - {Staging} == old(slots) && Touched(old(passed), passed, Staging, old(slots))
        invariant k == 0 ==> slots == old(slots)
        invariant k > 0 ==> Staging in slots && slots[Staging] == Copied(src, files, k)
      {
        assert files[k] in files;
        r := CopyFile(files[k], src[files[k]]);
        if r.Err? {
          return;
        }
      }
      CopiedIsWhole(src, files);
      return Ok(());
    }

    /** Takes the new tree away again and puts back the one it replaced. */
    method Undo(swap: Swap) returns (r: Outcome)
      requires swap.dest == Dest && swap.aside != Some(Dest)
      requires swap.aside.Some? ==> swap.aside.value in slots
      modifies this
      ensures r.Ok? ==> slots == Undone(old(slots), swap)
      ensures r.Err? ==> slots - {Dest} == old(slots) - {Dest}
      ensures Dest !in old(slots) && r.Err? ==> slots == old(slots) && passed == old(passed)
      ensures Dest !in old(slots) && swap.aside.Some? && r.Ok? ==> passed == old(passed) + [slots]
      ensures r.Err? ==> !r.error.Cleanup?
      ensures !flaky ==> r.Ok?
    {
      r := Discard(Dest);
      if r.Err? || swap.aside.None? {
        return;
      }
      assert slots == old(slots) - {Dest};
      assert Dest !in old(slots) ==> old(slots) - {Dest} == old(slots);
      r := Rename(swap.aside.value, Dest);
      assert r.Ok? ==> slots == Undone(old(slots), swap);
    }

    /** Drops the tree that was set aside; a host that refuses leaves it, and nothing else is touched. */
    method Commit(swap: Swap)
      requires swap.aside != Some(Dest)
      modifies this
      ensures TreeAt(slots, Dest) == TreeAt(old(slots), Dest)
      ensures swap.aside.None? ==> slots == old(slots)
      ensures swap.aside.Some? ==> slots - {swap.aside.value} == old(slots) - {swap.aside.value}
      ensures swap.aside.Some? && !flaky ==> swap.aside.value !in slots
    {
      if swap.aside.Some? {
        var _ := Discard(swap.aside.value);
        assert Dest in old(slots) ==> (slots - {swap.aside.value})[Dest] == (old(slots) - {swap.aside.value})[Dest];
        assert Dest in slots <==> Dest in slots - {swap.aside.value};
        assert Dest in old(slots) <==> Dest in old(slots) - {swap.aside.value};
      }
    }

    /** Moves the destination aside for a removal: nothing is deleted yet. */
    method Aside() returns (r: Result<Option<Swap>, PackError>)
      requires Removed !in slots
      modifies this
      ensures r.Ok? && r.value.None? ==> slots == old(slots)
      ensures r.Ok? && r.value.Some? ==> Dest in old(slots) && r.value.value == Swap(Dest, Some(Removed))
      ensures r.Ok? && r.value.Some? ==> slots == (old(slots) - {Dest})[Removed := old(slots)[Dest]]
      ensures r.Err? ==> slots == old(slots)
      ensures Dest !in old(slots) ==> r == Ok(None)
      ensures !flaky ==> r.Ok?
    {
      if Dest !in slots {
        return Ok(None);
      }
      var moved := Rename(Dest, Removed);
      if moved.Err? {
        return Err(Write(Dest));
      }
      return Ok(Some(Swap(Dest, Some(Removed))));
    }

    /** The two renames, the new tree staged; what they leave when one fails. */
    method SwapIn(src: Tree, ghost was: Slots) returns (r: Result<Swap, PackError>)
      requires Staging !in was && Previous !in was && slots - {Staging} == was
      requires Staging in slots ==> slots[Staging] == src
      modifies this
      ensures old(passed) <= passed && NeverTorn(passed, |old(passed)|, TreeAt(was, Dest), src)
      ensures r.Ok? ==> Staging in old(slots) && slots == Installed(was, src)
      ensures r.Ok? ==> r.value == Swap(Dest, if Dest in was then Some(Previous) else None)
      ensures r.Err? && !r.error.Cleanup? ==> slots - {Staging} == was
      ensures r.Err? && r.error.Cleanup? ==> Dest in was && slots - {Staging} == SetAside(was)
      ensures !flaky && Staging in old(slots) ==> r.Ok?
    {
      var hadPrevious := Dest in slots;
      SlotsApart(slots, Staging, Dest);
      SlotsApart(slots, Staging, Previous);
      if hadPrevious {
        var moved := Rename(Dest, Previous);
        if moved.Err? {
          return Err(Write(Dest));
        }
        assert slots - {Staging} == SetAside(was);
      }
      r := PlaceStaged(Swap(Dest, if hadPrevious then Some(Previous) else None), src, was);
    }

    /** The staged tree onto the free destination; a tree set aside comes back when that fails. */
    method PlaceStaged(swap: Swap, ghost src: Tree, ghost was: Slots) returns (r: Result<Swap, PackError>)
      requires Staging !in was && Previous !in was && swap == Swap(Dest, if Dest in was then Some(Previous) else None)
      requires slots - {Staging} == (if Dest in was then SetAside(was) else was)
      requires Staging in slots ==> slots[Staging] == src
      modifies this
      ensures old(passed) <= passed && NeverTorn(passed, |old(passed)|, TreeAt(was, Dest), src)
      ensures r.Ok? ==> Staging in old(slots) && slots == Installed(was, src) && r.value == swap
      ensures r.Err? && !r.error.Cleanup? ==> slots - {Staging} == was
      ensures r.Err? && r.error.Cleanup? ==> Dest in was && slots - {Staging} == SetAside(was)
      ensures !flaky && Staging in old(slots) ==> r.Ok?
    {
      SlotsApart(slots, Staging, Dest);
      SlotsApart(slots, Staging, Previous);
      var placed := Rename(Staging, Dest);
      if placed.Ok? {
        assert slots == Installed(was, src);
        return Ok(swap);
      }
      if swap.aside.None? {
        return Err(placed.error);
      }
      PutBack(slots, was);
      var undone := Undo(swap);
      return Err(WithCleanup(placed.error, undone));
    }

    /** The staged copy, then the swap. */
    method StageAndSwap(src: Tree, files: seq<string>) returns (r: Result<Swap, PackError>)
      requires Staging !in slots && Previous !in slots && forall f :: f in files <==> f in src
      modifies this
      ensures old(passed) <= passed && NeverTorn(passed, |old(passed)|, TreeAt(old(slots), Dest), src)
      ensures r.Ok? ==> src != map[] && slots == Installed(old(slots), src)
      ensures r.Ok? ==> r.value == Swap(Dest, if Dest in old(slots) then Some(Previous) else None)
      ensures r.Err? && !r.error.Cleanup? ==> slots - {Staging} == old(slots)
      ensures r.Err? && r.error.Cleanup? ==> Dest in old(slots) && slots - {Staging} == SetAside(old(slots))
      ensures !flaky ==> (r.Ok? <==> src != map[])
    {
      assert slots - {Staging} == slots;
      var refused: bool := *;
      if flaky && refused {
        return Err(Write(Staging));
      }
      var copied := VendorTree(src, files);
      StagingTearsNothing(old(passed), passed, |old(passed)|, old(slots), TreeAt(old(slots), Dest), src);
      if copied.Err? {
        return Err(copied.error);
      }
      if files != [] {
        FilesNotEmpty(src, files);
      } else {
        assert forall f :: f in src ==> f in files;
        assert src == map[];
      }
      r := SwapIn(src, old(slots));
    }

    /**
     The whole install. The destination is never torn. A success leaves the new tree
     in place, the old one aside and no staging; an error whose cleanup did not fail
     leaves the disk as it was; and where cleanup failed the old tree is still whole,
     in place or aside. A host that refuses nothing installs every tree but an empty
     one, for which no staging directory is ever made.
     */
    method VendorIntoPlace(src: Tree, files: seq<string>) returns (r: Result<Swap, PackError>)
      requires Staging !in slots && Previous !in slots && forall f :: f in files <==> f in src
      modifies this
      ensures old(passed) <= passed && NeverTorn(passed, |old(passed)|, TreeAt(old(slots), Dest), src)
      ensures r.Ok? ==> src != map[] && slots == Installed(old(slots), src)
      ensures r.Ok? ==> r.value == Swap(Dest, if Dest in old(slots) then Some(Previous) else None)
      ensures r.Err? && !r.error.Cleanup? ==> slots == old(slots)
      ensures r.Err? ==> (TreeAt(slots, Dest) == TreeAt(old(slots), Dest)
                          || (TreeAt(slots, Dest) == None && TreeAt(slots, Previous) == TreeAt(old(slots), Dest)))
      ensures r.Err? && Staging in slots ==> r.error.Cleanup? && r.error.cleanup == Write(Staging)
      ensures !flaky ==> (r.Ok? <==> src != map[])
    {
      r := StageAndSwap(src, files);
      if r.Err? {
        ghost var left, before := slots, passed;
        SlotsApart(left, Staging, Dest);
        SlotsApart(left, Staging, Previous);
        var cleaned := Discard(Staging);
        SlotsApart(slots, Staging, Dest);
        SlotsApart(slots, Staging, Previous);
        StagingTearsNothing(before, passed, |old(passed)|, left - {Staging}, TreeAt(old(slots), Dest), src);
        r := Err(WithCleanup(r.error, cleaned));
      }
    }

    /** Undoing a successful install gives the disk back exactly as it was. */
    method VendorThenUndo(src: Tree, files: seq<string>) returns (installed: bool, undone: Outcome)
      requires Staging !in slots && Previous !in slots && forall f :: f in files <==> f in src
      modifies this
      ensures installed && undone.Ok? ==> slots == old(slots)
      ensures !flaky && src != map[] ==> installed && undone.Ok?
    {
      var r := VendorIntoPlace(src, files);
      installed := r.Ok?;
      undone := Ok(());
      if installed {
        undone := Undo(r.value);
        if undone.Ok? {
          assert slots == old(slots);
        }
      }
    }
  }

  /** The new tree in place, the tree it replaced set aside. */
  function Installed(was: Slots, src: Tree): Slots {
    (if Dest in was then was[Previous := was[Dest]] else was)[Dest := src]
  }

  /** The tree that is replaced, moved aside. */
  function SetAside(was: Slots): Slots
    requires Dest in was
  {
    (was - {Dest})[Previous := was[Dest]]
  }

  function Undone(slots: Slots, swap: Swap): Slots
    requires swap.aside.Some? ==> swap.aside.value in slots
  {
    if swap.aside.None? then slots - {Dest}
    else (slots - {Dest, swap.aside.value})[Dest := slots[swap.aside.value]]
  }

  lemma {:induction false} PutBack(slots: Slots, was: Slots)
    requires Dest in was && Staging !in was && Previous !in was && slots - {Staging} == SetAside(was)
    ensures Dest !in slots && Previous in slots && Undone(slots, Swap(Dest, Some(Previous))) - {Staging} == was
  {
    SlotsApart(slots, Staging, Dest);
    SlotsApart(slots, Staging, Previous);
    var back := Undone(slots, Swap(Dest, Some(Previous))) - {Staging};
    forall slot ensures slot in back <==> slot in was {
      if slot != Staging {
        SlotsApart(slots, Staging, slot);
      }
    }
    forall slot | slot in was ensures back[slot] == was[slot] {
      SlotsApart(slots, Staging, slot);
    }
  }

  /** The first `n` files, each with its content. */
  function Copied(src: Tree, files: seq<string>, n: nat): Tree
    requires n <= |files| && forall f :: f in files ==> f in src
  {
    if n == 0 then map[] else
      assert files[n - 1] in files;
      Copied(src, files, n - 1)[files[n - 1] := src[files[n - 1]]]
  }

  lemma {:induction false} CopiedHolds(src: Tree, files: seq<string>, n: nat, f: string)
    requires n <= |files| && forall f :: f in files ==> f in src
    ensures f in Copied(src, files, n) <==> f in files[..n]
    ensures f in Copied(src, files, n) ==> f in src && Copied(src, files, n)[f] == src[f]
  {
    if n > 0 {
      CopiedHolds(src, files, n - 1, f);
      assert files[n - 1] in files;
      assert files[..n] == files[..n - 1] + [files[n - 1]];
    }
  }

  lemma {:induction false} CopiedIsWhole(src: Tree, files: seq<string>)
    requires forall f :: f in files <==> f in src
    ensures Copied(src, files, |files|) == src
  {
    assert files[..|files|] == files;
    forall f: string { CopiedHolds(src, files, |files|, f); }
  }

  lemma {:induction false} FilesNotEmpty(src: Tree, files: seq<string>)
    requires files != [] && forall f :: f in files <==> f in src
    ensures src != map[]
  {
    assert files[0] in src;
  }
}
