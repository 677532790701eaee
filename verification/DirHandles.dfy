/**
 Directory handles: OpenDir's snapshot of a node's children, and ReadDir, which walks the snapshot
 in place, clears the slots of deleted children and stops when the reply is full.  The slots it
 returns are those that module DirPaging reasons about.
 */
module DirHandles {
  import opened FileTree
  import P = DirPaging

  datatype Status = OK | ENOENT

  ghost function Members(slots: seq<Node?>): set<Node> {
    set i | 0 <= i < |slots| && slots[i] != null :: slots[i]
  }

  /** Which slots hold a child that is not deleted. */
  ghost function Live(slots: seq<Node?>): (r: seq<bool>)
    reads Members(slots)
    ensures |r| == |slots|
    ensures forall i :: 0 <= i < |slots| ==> (r[i] <==> slots[i] != null && !slots[i].isDel)
  {
    seq(|slots|, i requires 0 <= i < |slots| reads Members(slots) => slots[i] != null && !slots[i].isDel)
  }

  ghost predicate Picks(slots: seq<Node?>, which: seq<nat>, entries: seq<Node>) {
    && |entries| == |which|
    && forall k :: 0 <= k < |which| ==> which[k] < |slots| && slots[which[k]] == entries[k]
  }

  /** Each child of the table is in exactly one slot, under no particular order. */
  ghost predicate Snapshot(children: map<string, Node>, slots: seq<Node?>, names: seq<string>) {
    && |names| == |slots|
    && (forall i :: 0 <= i < |slots| ==> names[i] in children && slots[i] == children[names[i]])
    && (forall i, j :: 0 <= i < j < |names| ==> names[i] != names[j])
    && (forall x :: x in children ==> x in names)
  }

  /** `UnsafeChildren`: the table is visited in some order, each key once. */
  method Children(node: Node) returns (slots: seq<Node?>)
    ensures exists names :: Snapshot(node.children, slots, names)
  {
    slots := [];
    ghost var names: seq<string> := [];
    var left := node.children.Keys;
    while left != {}
      invariant left <= node.children.Keys && |names| == |slots|
      invariant forall i :: 0 <= i < |slots| ==> names[i] in node.children && slots[i] == node.children[names[i]]
      invariant forall i, j :: 0 <= i < j < |names| ==> names[i] != names[j]
      invariant forall x :: x in node.children ==> (x in left <==> x !in names)
      decreases left
    {
      var x :| x in left;
      left := left - {x};
      slots := slots + [node.children[x]];
      names := names + [x];
    }
    assert Snapshot(node.children, slots, names);
  }

  class DirTable {
    var lastDirFh: nat
    var openDirs: map<nat, array<Node?>>

    constructor ()
      ensures lastDirFh == 1 && openDirs == map[]
    {
      lastDirFh := 1;
      openDirs := map[];
    }

    /** Handles are numbered in the order they are opened. */
    ghost predicate Valid()
      reads this
    {
      forall fh :: fh in openDirs ==> fh <= lastDirFh
    }

    /** `nodes` is the NodeID registry; an unknown NodeID opens nothing. */
    method OpenDir(nodes: map<nat, Node>, nodeId: nat) returns (status: Status, fh: nat)
      requires Valid()
      modifies this
      ensures Valid()
      ensures status.ENOENT? <==> nodeId !in nodes
      ensures status.ENOENT? ==> openDirs == old(openDirs) && lastDirFh == old(lastDirFh)
      ensures status.OK? ==>
                && fh !in old(openDirs) && fh in openDirs && fresh(openDirs[fh])
                && openDirs == old(openDirs)[fh := openDirs[fh]]
                && exists names :: Snapshot(nodes[nodeId].children, openDirs[fh][..], names)
    {
      if nodeId !in nodes {
        return ENOENT, 0;
      }
      var node := nodes[nodeId];
      var slots := Children(node);
      var snapshot := new Node?[|slots|](i requires 0 <= i < |slots| => slots[i]);
      assert snapshot[..] == slots;
      fh := lastDirFh + 1;
      lastDirFh := fh;
      openDirs := openDirs[fh := snapshot];
      status := OK;
      ghost var names :| Snapshot(node.children, slots, names);
      assert Snapshot(node.children, openDirs[fh][..], names);
    }

    /**
     One reply with room for `room` entries; the walk writes into the shared snapshot.  The parent's
     NodeID must still resolve, though the snapshot alone decides what is returned.
     */
    method ReadDir(nodes: map<nat, Node>, nodeId: nat, fh: nat, offset: nat, room: nat)
      returns (status: Status, entries: seq<Node>)
      modifies if nodeId in nodes && fh in openDirs then {openDirs[fh]} else {}
      ensures status.ENOENT? <==> nodeId !in nodes || fh !in openDirs
      ensures status.ENOENT? ==> entries == []
      ensures status.OK? ==>
                var slots := old(openDirs[fh][..]);
                && Picks(slots, P.Page(old(Live(slots)), offset, room), entries)
                && Live(openDirs[fh][..]) == old(Live(slots))
                && forall i :: 0 <= i < |slots| ==>
                     openDirs[fh][i] == slots[i] || (openDirs[fh][i] == null && slots[i] != null && slots[i].isDel)
    {
      entries := [];
      if nodeId !in nodes || fh !in openDirs {
        return ENOENT, [];
      }
      status := OK;
      var children := openDirs[fh];
      ghost var slots := children[..];
      ghost var which: seq<nat> := [];
      ghost var live := Live(slots);
      if offset >= children.Length {
        return;
      }
      var i: nat := offset;
      while i < children.Length
        invariant offset <= i <= children.Length && |which| <= room
        invariant Picks(slots, which, entries)
        invariant P.Page(live, offset, room) == which + P.Page(live, i, room - |which|)
        invariant forall k :: 0 <= k < |slots| ==>
                    children[k] == slots[k] || (children[k] == null && slots[k] != null && slots[k].isDel)
        invariant forall k :: i <= k < |slots| ==> children[k] == slots[k]
      {
        var ch := children[i];
        if ch == null {
        } else if ch.isDel {
          children[i] := null;
        } else if |entries| < room {
          entries := entries + [ch];
          which := which + [i];
        } else {
          break;
        }
        i := i + 1;
      }
      assert P.Page(live, i, room - |which|) == [];
      assert Live(children[..]) == live;
    }

    method ReleaseDir(fh: nat)
      requires Valid()
      modifies this
      ensures Valid() && lastDirFh == old(lastDirFh) && openDirs == old(openDirs) - {fh}
    {
      openDirs := openDirs - {fh};
    }
  }
}
