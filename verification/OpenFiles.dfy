/**
 Open files and write denial (filesys/file.c, with the counters of filesys/inode.c). The in-memory inodes count their
 openers and the openers that deny writes; `files` are the open files.
 */
module OpenFiles {
  class Inode {
    const sector: int
    var openCnt: int
    var denyCnt: int

    constructor (sector: int)
      ensures this.sector == sector && openCnt == 1 && denyCnt == 0
    {
      this.sector := sector;
      openCnt, denyCnt := 1, 0;
    }
  }

  class File {
    const inode: Inode
    var denyWrite: bool

    constructor (inode: Inode)
      ensures this.inode == inode && !denyWrite
    {
      this.inode := inode;
      denyWrite := false;
    }
  }

  /** Those of the files that are open on inode `n`. */
  function On(files: set<File>, n: Inode): set<File> {
    set f | f in files && f.inode == n
  }

  lemma {:induction false} OnMore(files: set<File>, f: File, n: Inode)
    requires f !in files
    ensures |On(files + {f}, n)| == |On(files, n)| + if f.inode == n then 1 else 0
  {
    assert On(files + {f}, n) == if f.inode == n then On(files, n) + {f} else On(files, n);
  }

  lemma {:induction false} OnLess(files: set<File>, f: File, n: Inode)
    requires f in files
    ensures |On(files - {f}, n)| == |On(files, n)| - if f.inode == n then 1 else 0
  {
    OnMore(files - {f}, f, n);
    assert files - {f} + {f} == files;
  }

  lemma {:induction false} OnSubset(a: set<File>, b: set<File>, n: Inode)
    requires a <= b
    ensures |On(a, n)| <= |On(b, n)|
  {
    assert On(b, n) == On(a, n) + On(b - a, n) && On(a, n) !! On(b - a, n);
  }

  lemma {:induction false} OnSome(files: set<File>, n: Inode)
    ensures |On(files, n)| > 0 <==> exists f :: f in files && f.inode == n
  {
    if |On(files, n)| > 0 {
      var f :| f in On(files, n);
      assert f in files && f.inode == n;
    } else {
      assert On(files, n) == {};
      forall f | f in files ensures f.inode != n { assert f !in On(files, n); }
    }
  }

  /** No inode and no sector twice. */
  ghost predicate OneEach(s: seq<Inode>) {
    forall i, j | 0 <= i < j < |s| :: s[i] != s[j] && s[i].sector != s[j].sector
  }

  lemma {:induction false} WithoutOne(s: seq<Inode>, i: int)
    requires OneEach(s) && 0 <= i < |s|
    ensures var t := s[..i] + s[i + 1..]; OneEach(t) && forall n :: n in t <==> n in s && n != s[i]
  {
    var t := s[..i] + s[i + 1..];
    forall j | 0 <= j < |t| ensures t[j] == s[if j < i then j else j + 1] && t[j] != s[i] {}
    forall n | n in s && n != s[i] ensures n in t {
      var j: int :| 0 <= j < |s| && s[j] == n;
      assert t[if j < i then j else j - 1] == n;
    }
    forall n | n in t ensures n in s && n != s[i] {
      var j: int :| 0 <= j < |t| && t[j] == n;
    }
  }

  class Table {
    var inodes: seq<Inode>       // open_inodes
    ghost var files: set<File>
    ghost var deniers: set<File>

    /** One inode a sector; its counters are the numbers of its openers and of those that deny writes. */
    ghost predicate Valid()
      reads this, inodes, files
    {
      && OneEach(inodes) && deniers <= files
      && (forall f | f in files :: f.inode in inodes && f.denyWrite == (f in deniers))
      && (forall n | n in inodes :: n.openCnt == |On(files, n)| && n.openCnt > 0 && n.denyCnt == |On(deniers, n)|)
    }

    constructor ()
      ensures Valid() && files == {}
    {
      inodes := [];
      files, deniers := {}, {};
    }

    /** inode_write_at goes ahead exactly when no open file denies it. */
    method MayWrite(f: File) returns (b: bool)
      requires Valid() && f in files
      ensures b <==> forall g | g in files && g.inode == f.inode :: !g.denyWrite
    {
      b := f.inode.denyCnt == 0;
      OnSome(deniers, f.inode);
    }

    /** file_deny_write: at most one denial an opener, so the counter never passes the openers. */
    method DenyWrite(f: File)
      requires Valid() && f in files
      modifies this`deniers, f, f.inode
      ensures Valid() && deniers == old(deniers) + {f}
    {
      if !f.denyWrite {
        forall n { OnMore(deniers, f, n); }
        OnSubset(deniers + {f}, files, f.inode);
        f.denyWrite := true;
        f.inode.denyCnt := f.inode.denyCnt + 1;
        deniers := deniers + {f};
        assert f.inode.denyCnt <= f.inode.openCnt;
      }
    }

    /** file_allow_write. */
    method AllowWrite(f: File)
      requires Valid() && f in files
      modifies this`deniers, f, f.inode
      ensures Valid() && deniers == old(deniers) - {f}
    {
      if f.denyWrite {
        forall n { OnLess(deniers, f, n); }
        OnSubset(deniers, files, f.inode);
        OnSome(deniers, f.inode);
        assert 0 < f.inode.denyCnt <= f.inode.openCnt;
        f.denyWrite := false;
        f.inode.denyCnt := f.inode.denyCnt - 1;
        deniers := deniers - {f};
      }
    }

    /** The search of inode_open. */
    method FindInode(sector: int) returns (i: int)
      ensures 0 <= i <= |inodes| && (i < |inodes| ==> inodes[i].sector == sector)
      ensures i == |inodes| ==> forall n | n in inodes :: n.sector != sector
    {
      i := 0;
      while i < |inodes| && inodes[i].sector != sector
        invariant 0 <= i <= |inodes| && forall j | 0 <= j < i :: inodes[j].sector != sector
      {
        i := i + 1;
      }
    }

    /** Another opener of an inode on the list. */
    method AddOpener(n: Inode) returns (f: File)
      requires Valid() && n in inodes
      modifies this`files, n
      ensures Valid() && fresh(f) && f.inode == n && !f.denyWrite && files == old(files) + {f}
      ensures deniers == old(deniers)
    {
      f := new File(n);
      forall m { OnMore(files, f, m); }
      n.openCnt := n.openCnt + 1;
      files := files + {f};
    }

    /** file_open (inode_open (sector)): a sector that is already open gets the same inode. */
    method Open(sector: int, inodeMemory: bool, fileMemory: bool) returns (f: File?)
      requires Valid()
      modifies this, inodes
      ensures Valid()
      ensures f == null <==> !fileMemory || (!inodeMemory && forall n | n in old(inodes) :: n.sector != sector)
      ensures f == null ==> files == old(files) && inodes == old(inodes)
      ensures f != null ==>
        fresh(f) && !f.denyWrite && f.inode.sector == sector && files == old(files) + {f} && deniers == old(deniers)
      ensures f != null ==> forall g | g in old(files) :: g.inode.sector == sector <==> g.inode == f.inode
    {
      var i := FindInode(sector);
      if !fileMemory || (i == |inodes| && !inodeMemory) {
        return null;
      }
      if i < |inodes| {
        f := AddOpener(inodes[i]);
      } else {
        f := OpenNew(sector);
      }
    }

    method OpenNew(sector: int) returns (f: File)
      requires Valid() && forall n | n in inodes :: n.sector != sector
      modifies this
      ensures Valid() && fresh(f) && fresh(f.inode) && !f.denyWrite && f.inode.sector == sector
      ensures files == old(files) + {f}
    {
      var n := new Inode(sector);
      f := new File(n);
      forall m { OnMore(files, f, m); }
      OnSome(files, n);
      OnSome(deniers, n);
      inodes := [n] + inodes;
      files := files + {f};
    }

    /** list_remove (&inode->elem). */
    method RemoveInode(n: Inode)
      requires OneEach(inodes) && n in inodes
      modifies this`inodes
      ensures OneEach(inodes) && forall m :: m in inodes <==> m in old(inodes) && m != n
    {
      var i := 0;
      while inodes[i] != n
        invariant 0 <= i < |inodes| && inodes == old(inodes) && forall j | 0 <= j < i :: inodes[j] != n
        decreases |inodes| - i
      {
        i := i + 1;
      }
      WithoutOne(inodes, i);
      inodes := inodes[..i] + inodes[i + 1..];
    }

    /** file_close: the denial goes with the file, and the inode with its last opener. */
    method Close(f: File)
      requires Valid() && f in files
      modifies this, f, f.inode
      ensures Valid() && files == old(files) - {f} && deniers == old(deniers) - {f}
      ensures f.inode in inodes <==> exists g :: g in files && g.inode == f.inode
    {
      AllowWrite(f);
      forall n { OnLess(files, f, n); }
      f.inode.openCnt := f.inode.openCnt - 1;
      files := files - {f};
      OnSome(files, f.inode);
      if f.inode.openCnt == 0 {
        RemoveInode(f.inode);
      }
    }
  }
}
