/**
 The inode cache of the tracing file system: inodes linked both ways, from parent to child by name
 (`dentries`) and from child to parent by name and parent number (`parents`). The two indexes are
 kept apart by hand, and the clean-up loops end only because they mirror each other.
 */
module InodeCache {
  import opened Wrappers

  class Inode {
    const ino: nat
    var parents: map<(string, nat), Inode>
    var dentries: map<string, Inode>

    constructor (ino: nat)
      ensures this.ino == ino && parents == map[] && dentries == map[]
    {
      this.ino, parents, dentries := ino, map[], map[];
    }
  }

  /** The dentry d of p, if any, has its back link. */
  ghost predicate LinkedUp(all: set<Inode>, p: Inode, d: string)
    reads p`dentries, all`parents
  {
    d in p.dentries ==>
      var x := p.dentries[d];
      x in all && (d, p.ino) in x.parents && x.parents[(d, p.ino)] == p
  }

  /** The back link of x under name d and parent number i, if any, has its dentry. */
  ghost predicate LinkedDown(all: set<Inode>, x: Inode, d: string, i: nat)
    reads x`parents, all`dentries
  {
    (d, i) in x.parents ==>
      var p := x.parents[(d, i)];
      p in all && p.ino == i && d in p.dentries && p.dentries[d] == x
  }

  /** parent.dentries[d] is x exactly when x.parents[(d, parent.ino)] is parent. */
  ghost predicate Mirror(all: set<Inode>)
    reads all`dentries, all`parents
  {
    && (forall p, d {:trigger LinkedUp(all, p, d)} | p in all :: LinkedUp(all, p, d))
    && (forall x, d, i {:trigger LinkedDown(all, x, d, i)} | x in all :: LinkedDown(all, x, d, i))
  }

  ghost predicate DistinctNumbers(all: set<Inode>) {
    forall a, b | a in all && b in all && a.ino == b.ino :: a == b
  }

  /** The dentries that do not lead to x. */
  function NotTo(dentries: map<string, Inode>, x: Inode): map<string, Inode> {
    map d | d in dentries && dentries[d] != x :: dentries[d]
  }

  method RemoveDentry(ghost all: set<Inode>, pin: Inode, dname: string)
    requires Mirror(all) && DistinctNumbers(all) && pin in all && dname in pin.dentries
    modifies all`dentries, all`parents
    ensures Mirror(all)
    ensures pin.dentries == old(pin.dentries) - {dname}
    ensures forall x | x in all && x != pin :: x.dentries == old(x.dentries)
    ensures var child := old(pin.dentries[dname]);
            child in all && child.parents == old(pin.dentries[dname].parents) - {(dname, pin.ino)}
    ensures old((dname, pin.ino) in pin.dentries[dname].parents)
    ensures forall x | x in all && x != old(pin.dentries[dname]) :: x.parents == old(x.parents)
  {
    var child := pin.dentries[dname];
    ghost var linked := LinkedUp(all, pin, dname);
    assert linked;
    pin.dentries := pin.dentries - {dname};
    child.parents := child.parents - {(dname, pin.ino)};
    forall p, d | p in all
      ensures LinkedUp(all, p, d)
    {
      ghost var was := old(LinkedUp(all, p, d));
      assert was;
    }
    forall x, d, i | x in all
      ensures LinkedDown(all, x, d, i)
    {
      ghost var was := old(LinkedDown(all, x, d, i));
      assert was;
    }
  }

  method AddDentry(ghost all: set<Inode>, parent: Inode, dname: string, child: Inode)
    requires Mirror(all) && DistinctNumbers(all) && parent in all && child in all
    modifies all`dentries, all`parents
    ensures Mirror(all)
    ensures parent.dentries == old(parent.dentries)[dname := child]
    ensures forall x | x in all && x != parent :: x.dentries == old(x.dentries)
  {
    if dname in parent.dentries {
      RemoveDentry(all, parent, dname);
    }
    ghost var linked := LinkedDown(all, child, dname, parent.ino);
    assert linked;
    NewLink(all, parent, dname, child);
  }

  /** The last two statements of add_dentry: the link in both indexes. */
  method NewLink(ghost all: set<Inode>, parent: Inode, dname: string, child: Inode)
    requires Mirror(all) && parent in all && child in all
    requires dname !in parent.dentries && (dname, parent.ino) !in child.parents
    modifies parent`dentries, child`parents
    ensures Mirror(all)
    ensures parent.dentries == old(parent.dentries)[dname := child]
    ensures child.parents == old(child.parents)[(dname, parent.ino) := parent]
  {
    parent.dentries := parent.dentries[dname := child];
    child.parents := child.parents[(dname, parent.ino) := parent];
    forall p, d | p in all
      ensures LinkedUp(all, p, d)
    {
      ghost var was := old(LinkedUp(all, p, d));
      assert was;
    }
    forall x, d, i | x in all
      ensures LinkedDown(all, x, d, i)
    {
      ghost var was := old(LinkedDown(all, x, d, i));
      assert was;
    }
  }

  /** Some dentries leading to x are gone, and nothing else. */
  ghost predicate CutOnlyTo(was: map<string, Inode>, now: map<string, Inode>, x: Inode) {
    && (forall d | d in now :: d in was && now[d] == was[d])
    && (forall d | d in was :: d in now || was[d] == x)
  }

  /** An inode without back links has no dentry leading to it. */
  lemma NoLinkTo(all: set<Inode>, x: Inode)
    requires Mirror(all) && x.parents == map[]
    ensures forall p, d | p in all && d in p.dentries :: p.dentries[d] != x
  {
    forall p, d | p in all && d in p.dentries
      ensures p.dentries[d] != x
    {
      var linked := LinkedUp(all, p, d);
      assert linked;
    }
  }

  /** The first loop of unlink_inode: every link to x is cut at its parent. */
  method UnlinkParents(ghost all: set<Inode>, x: Inode)
    requires Mirror(all) && DistinctNumbers(all) && x in all
    modifies all`dentries, all`parents
    ensures Mirror(all) && x.parents == map[]
    ensures forall p | p in all :: p.dentries == NotTo(old(p.dentries), x)
  {
    while x.parents != map[]
      invariant Mirror(all)
      invariant forall p | p in all :: CutOnlyTo(old(p.dentries), p.dentries, x)
      decreases x.parents.Keys
    {
      var key :| key in x.parents;
      var (dname, i) := key;
      var parent := x.parents[key];
      ghost var linked := LinkedDown(all, x, dname, i);
      assert linked;
      RemoveDentry(all, parent, dname);
    }
    NoLinkTo(all, x);
  }

  /** The second loop: every link from x is cut. */
  method UnlinkChildren(ghost all: set<Inode>, x: Inode)
    requires Mirror(all) && DistinctNumbers(all) && x in all && x.parents == map[]
    modifies all`dentries, all`parents
    ensures Mirror(all) && x.parents == map[] && x.dentries == map[]
    ensures forall p | p in all && p != x :: p.dentries == old(p.dentries)
  {
    while x.dentries != map[]
      invariant Mirror(all) && x.parents == map[]
      invariant forall p | p in all && p != x :: p.dentries == old(p.dentries)
      decreases x.dentries.Keys
    {
      var dname :| dname in x.dentries;
      NoLinkTo(all, x);
      RemoveDentry(all, x, dname);
    }
  }

  /** unlink_inode(): no link to or from x is left, and every other link is as it was. */
  method UnlinkInode(ghost all: set<Inode>, x: Inode)
    requires Mirror(all) && DistinctNumbers(all) && x in all
    modifies all`dentries, all`parents
    ensures Mirror(all) && x.parents == map[] && x.dentries == map[]
    ensures forall p | p in all && p != x :: p.dentries == NotTo(old(p.dentries), x)
  {
    UnlinkParents(all, x);
    UnlinkChildren(all, x);
  }

  // ---------------------------------------------------------------- the cache

  class Cache {
    const root: Inode
    var inodeMap: map<nat, Inode>
    ghost var all: set<Inode>

    constructor ()
      ensures Valid() && fresh(this) && fresh(root)
      ensures root.ino == 1 && inodeMap == map[1 := root] && all == {root} && root.dentries == map[]
    {
      var r := new Inode(1);
      root, inodeMap, all := r, map[1 := r], {r};
    }

    ghost predicate Numbered()
      reads this
    {
      && (forall i | i in inodeMap :: inodeMap[i] in all && inodeMap[i].ino == i)
      && (forall x | x in all :: x.ino in inodeMap && inodeMap[x.ino] == x)
    }

    ghost predicate Valid()
      reads this, all`dentries, all`parents
    {
      Numbered() && DistinctNumbers(all) && Mirror(all)
    }

    /** remove_inode(): the inode leaves the cache, and no link mentions it. */
    method RemoveInode(x: Inode)
      requires Valid() && x in all
      modifies this`inodeMap, this`all, all`dentries, all`parents
      ensures Valid()
      ensures all == old(all) - {x} && inodeMap == old(inodeMap) - {x.ino}
      ensures forall p | p in all :: p.dentries == NotTo(old(p.dentries), x)
    {
      UnlinkInode(all, x);
      DropUnlinked(all, x);
      inodeMap := inodeMap - {x.ino};
      all := all - {x};
    }

    /** add_inode(): a known number is unlinked and reused, a new one gets a fresh inode. */
    method AddInode(parent: Inode, name: string, ino: nat) returns (x: Inode)
      requires Valid() && parent in all
      modifies this`inodeMap, this`all, all`dentries, all`parents
      ensures Valid() && x in all && x.ino == ino
      ensures ino in old(inodeMap) ==> x == old(inodeMap[ino]) && all == old(all)
      ensures ino !in old(inodeMap) ==> fresh(x) && all == old(all) + {x}
      ensures parent.dentries == (if x == parent then map[] else NotTo(old(parent.dentries), x))[name := x]
      ensures x != parent ==> x.dentries == map[]
      ensures forall p | p in old(all) && p != x && p != parent :: p.dentries == NotTo(old(p.dentries), x)
    {
      if ino in inodeMap {
        x := inodeMap[ino];
        UnlinkInode(all, x);
      } else {
        x := new Inode(ino);
        AddUnlinked(all, x);
        inodeMap := inodeMap[ino := x];
        all := all + {x};
        forall p | p in old(all)
          ensures p.dentries == NotTo(p.dentries, x)
        {
          NothingToFresh(old(all), p, x);
        }
      }
      AddDentry(all, parent, name, x);
    }

    /**
     The cache part of ft_ll_lookup() after a successful lstat. A miss always makes a new inode,
     so the cache stays valid exactly when the name was cached or the number is new.
     */
    method Lookup(parent: Inode, dname: string, ino: nat) returns (x: Inode)
      requires Valid() && parent in all
      modifies this`inodeMap, this`all, parent`dentries
      ensures dname in old(parent.dentries) ==>
                && x == old(parent.dentries[dname]) && all == old(all) && inodeMap == old(inodeMap)
                && parent.dentries == old(parent.dentries)
      ensures dname !in old(parent.dentries) ==>
                && fresh(x) && x.ino == ino && all == old(all) + {x} && inodeMap == old(inodeMap)[ino := x]
                && parent.dentries == old(parent.dentries)[dname := x]
      ensures Mirror(all)
      ensures Valid() <==> dname in old(parent.dentries) || ino !in old(inodeMap)
    {
      if dname in parent.dentries {
        return parent.dentries[dname];
      }
      x := new Inode(ino);
      AddUnlinked(all, x);
      inodeMap := inodeMap[ino := x];
      all := all + {x};
      NewLink(all, parent, dname, x);
      if ino in old(inodeMap) {
        ghost var other := old(inodeMap[ino]);
        assert other in all && other != x && inodeMap[other.ino] == x;
      }
    }

    /**
     The cache part of ft_ll_rename(). The entry arrives under its new name unless old and new
     name are the same, in which case it is lost.
     */
    method Rename(pin: Inode, dname: string, newpin: Inode, newdname: string)
      requires Valid() && pin in all && newpin in all
      modifies all`dentries, all`parents
      ensures Valid()
      ensures dname !in old(pin.dentries) ==> forall p | p in all :: p.dentries == old(p.dentries)
      ensures dname in old(pin.dentries) ==>
                && ((newdname in newpin.dentries && newpin.dentries[newdname] == old(pin.dentries[dname]))
                    <==> (pin, dname) != (newpin, newdname))
                && (forall p | p in all && p != pin && p != newpin :: p.dentries == old(p.dentries))
                && (pin != newpin ==> pin.dentries == old(pin.dentries) - {dname} &&
                                      newpin.dentries == old(newpin.dentries)[newdname := old(pin.dentries[dname])])
                && (pin == newpin ==> pin.dentries == old(pin.dentries)[newdname := old(pin.dentries[dname])] - {dname})
    {
      if dname in pin.dentries {
        var x := pin.dentries[dname];
        ghost var linked := LinkedUp(all, pin, dname);
        assert linked;
        AddDentry(all, newpin, newdname, x);
        RemoveDentry(all, pin, dname);
      }
    }
  }

  // ---------------------------------------------------------------- where the cache goes wrong

  /** A second name for a known inode, looked up: the cache then has two inodes of that number. */
  method SecondNameSplits(ino: nat) returns (c: Cache, first: Inode, second: Inode)
    requires ino != 1
    ensures fresh(c) && !c.Valid()
    ensures first in c.all && second in c.all && first != second && first.ino == second.ino == ino
  {
    c := new Cache();
    first := c.AddInode(c.root, "a", ino);
    second := c.Lookup(c.root, "b", ino);
  }

  /** An entry renamed to itself: the inode stays in the cache without a name. */
  method SelfRenameLoses(ino: nat) returns (c: Cache, x: Inode)
    requires ino != 1
    ensures fresh(c) && c.Valid() && x in c.all
    ensures "a" !in c.root.dentries && forall d | d in c.root.dentries :: c.root.dentries[d] != x
  {
    c := new Cache();
    x := c.AddInode(c.root, "a", ino);
    c.Rename(c.root, "a", c.root, "a");
  }

  // ---------------------------------------------------------------- paths

  /** Follows names down from an inode. */
  ghost function Walk(all: set<Inode>, from: Inode, names: seq<string>): Option<Inode>
    reads all`dentries
    decreases |names|
  {
    if names == [] then Some(from)
    else if from in all && names[0] in from.dentries then Walk(all, from.dentries[names[0]], names[1..])
    else None
  }

  lemma {:induction false} WalkOn(all: set<Inode>, from: Inode, names: seq<string>, p: Inode, d: string)
    requires Walk(all, from, names) == Some(p) && p in all && d in p.dentries
    ensures Walk(all, from, names + [d]) == Some(p.dentries[d])
    decreases |names|
  {
    if names == [] {
      assert names + [d] == [d];
    } else {
      assert (names + [d])[1..] == names[1..] + [d];
      WalkOn(all, from.dentries[names[0]], names[1..], p, d);
    }
  }

  /** A rank that falls from every inode to its parents. */
  ghost predicate Acyclic(all: set<Inode>, rank: map<Inode, nat>)
    reads all`parents
  {
    forall x, d, i | x in all && (d, i) in x.parents ::
      x in rank && x.parents[(d, i)] in rank && rank[x.parents[(d, i)]] < rank[x]
  }

  function Render(names: seq<string>): string {
    if names == [] then "" else Render(names[..|names| - 1]) + "/" + names[|names| - 1]
  }

  ghost predicate SlashFree(names: seq<string>) {
    forall i | 0 <= i < |names| :: '/' !in names[i]
  }

  /** A path of slash-free names is read back in one way only. */
  lemma {:induction false} RenderInjective(a: seq<string>, b: seq<string>)
    requires SlashFree(a) && SlashFree(b) && Render(a) == Render(b)
    ensures a == b
    decreases |a|
  {
    if a != [] && b != [] {
      var m, n := |a| - 1, |b| - 1;
      LastSlash(Render(a[..m]), a[m], Render(b[..n]), b[n]);
      RenderInjective(a[..m], b[..n]);
      assert a == a[..m] + [a[m]] && b == b[..n] + [b[n]];
    } else {
      assert |Render(a)| == |Render(b)|;
    }
  }

  lemma LastSlash(s: string, x: string, t: string, y: string)
    requires '/' !in x && '/' !in y && s + "/" + x == t + "/" + y
    ensures s == t && x == y
  {
    var whole := s + "/" + x;
    assert whole[|s|] == '/' && (t + "/" + y)[|t|] == '/';
    assert forall i | |s| < i < |whole| :: whole[i] == x[i - |s| - 1];
    assert forall i | |t| < i < |whole| :: whole[i] == y[i - |t| - 1];
    assert s == whole[..|s|] && t == whole[..|t|];
    assert x == whole[|s| + 1..] && y == whole[|t| + 1..];
  }

  /** The text is a path of names that lead from the root to x. */
  ghost predicate LeadsTo(all: set<Inode>, root: Inode, basedir: string, buf: string, x: Inode)
    reads all`dentries
  {
    exists names :: Walk(all, root, names) == Some(x) && buf == basedir + "/" + Render(names)
  }

  /**
   make_inode_path(): climbs from x by any of its back links. Walking the names it met, from the
   inode it ended at, leads back to x; it succeeds exactly when that inode is the root.
   */
  method MakeInodePath(cache: Cache, basedir: string, x: Inode, ghost rank: map<Inode, nat>)
    returns (ok: bool, buf: string, ghost names: seq<string>, ghost top: Inode)
    requires cache.Valid() && x in cache.all && Acyclic(cache.all, rank)
    ensures top in cache.all && top.parents == map[]
    ensures Walk(cache.all, top, names) == Some(x)
    ensures ok <==> top == cache.root
    ensures ok ==> buf == basedir + "/" + Render(names)
    ensures ok ==> LeadsTo(cache.all, cache.root, basedir, buf, x)
    decreases if x in rank then rank[x] else 0
  {
    if x.parents != map[] {
      var key :| key in x.parents;
      var (dname, i) := key;
      ghost var linked := LinkedDown(cache.all, x, dname, i);
      assert linked && (dname, i) in x.parents;
      ok, buf, names, top := MakeInodePath(cache, basedir, x.parents[key], rank);
      WalkOn(cache.all, top, names, x.parents[key], dname);
      assert (names + [dname])[..|names|] == names;
      names := names + [dname];
      if ok {
        buf := buf + "/" + dname;
      }
    } else {
      names, top := [], x;
      ok := x == cache.root;
      buf := if ok then basedir + "/" else "";
    }
  }

  lemma AddUnlinked(all: set<Inode>, x: Inode)
    requires Mirror(all) && x.parents == map[] && x.dentries == map[]
    ensures Mirror(all + {x})
  {
    var more := all + {x};
    forall p, d | p in more
      ensures LinkedUp(more, p, d)
    {
      var was := LinkedUp(all, p, d);
      assert p in all ==> was;
    }
    forall y, d, i | y in more
      ensures LinkedDown(more, y, d, i)
    {
      var was := LinkedDown(all, y, d, i);
      assert y in all ==> was;
    }
  }

  lemma NothingToFresh(all: set<Inode>, p: Inode, x: Inode)
    requires Mirror(all) && p in all && x !in all
    ensures p.dentries == NotTo(p.dentries, x)
  {
    forall d | d in p.dentries
      ensures p.dentries[d] != x
    {
      var was := LinkedUp(all, p, d);
      assert was;
    }
  }

  /** Without any link, an inode can be dropped from the mirrored set. */
  lemma DropUnlinked(all: set<Inode>, x: Inode)
    requires Mirror(all) && x in all && x.parents == map[] && x.dentries == map[]
    ensures Mirror(all - {x})
  {
    var rest := all - {x};
    forall p, d | p in rest
      ensures LinkedUp(rest, p, d)
    {
      var was := LinkedUp(all, p, d);
      assert was;
    }
    forall y, d, i | y in rest
      ensures LinkedDown(rest, y, d, i)
    {
      var was := LinkedDown(all, y, d, i);
      assert was;
    }
  }
}
