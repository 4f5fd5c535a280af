/** The shape of a healthy file system and what keeps it (src/fs/fat.c,
    src/kernel/kernel.c:394-494): chains that do not cross, directories that
    are owned by one entry, and a current directory that exists.  Directory
    slots are reduced here to what they refer to; fat_mount.dfy reads them
    off the bytes of a volume. */
module FileTree {
  import opened FatTable

  /** What a directory slot is: an end marker, a deleted entry, a volume label
      or long-name part, ".", "..", a subdirectory or a file with its first
      cluster, or something this driver never writes. */
  datatype Kind = End | Gone | Label | Self(c: nat) | Up(c: nat) | Sub(c: nat) | File(c: nat) | Odd

  /** The first FAT copy, the live directories by first cluster (0 is the
      root) with their slots, the current directory; and, for the statement
      of the invariant, the live cluster chains by first cluster and the
      directory and slot that refer to each of them. Clusters below limit
      have sectors on the volume. */
  datatype Fs = Fs(fat: seq<nat>, limit: nat, dir: map<nat, seq<Kind>>, cwd: nat,
                   chains: map<nat, seq<nat>>, owner: map<nat, (nat, nat)>)

  // ---------------------------------------------------------------------
  // The invariant
  // ---------------------------------------------------------------------

  ghost predicate ChainOk(fs: Fs, c: nat)
    requires c in fs.chains
  {
    var cs := fs.chains[c];
    IsChain(fs.fat, cs) && cs[0] == c && forall i :: 0 <= i < |cs| ==> cs[i] < fs.limit
  }

  ghost predicate Cross(a: seq<nat>, b: seq<nat>)
  {
    exists i, j :: 0 <= i < |a| && 0 <= j < |b| && a[i] == b[j]
  }

  /** Chains are acyclic, end-marked and pairwise disjoint, and free clusters
      can be allocated; every directory but the root has a chain. */
  ghost predicate ChainsOk(fs: Fs)
  {
    && fs.limit <= |fs.fat| && fs.limit <= END_MARK
    && (forall c :: 2 <= c < |fs.fat| && fs.fat[c] == 0 ==> c < fs.limit)
    && (forall c {:trigger ChainOk(fs, c)} :: c in fs.chains ==> ChainOk(fs, c))
    && (forall c, d {:trigger Cross(fs.chains[c], fs.chains[d])} :: c in fs.chains && d in fs.chains && c != d ==>
        !Cross(fs.chains[c], fs.chains[d]))
    && 0 in fs.dir && 0 !in fs.chains && (forall d :: d in fs.dir && d != 0 ==> d in fs.chains)
    && fs.owner.Keys == fs.chains.Keys
  }

  /** Slot n of directory d is what the books say refers to chain c. */
  ghost predicate Refers(fs: Fs, d: nat, n: nat, c: nat)
  {
    c in fs.owner && fs.owner[c] == (d, n)
  }

  /** What slot n of directory d may hold. */
  ghost predicate SlotOk(fs: Fs, d: nat, n: nat, k: Kind)
  {
    match k
    case End => true
    case Gone => true
    case Label => true
    case Self(c) => d in fs.owner && c == d
    case Up(c) => d in fs.owner && c == fs.owner[d].0
    case Sub(c) => c in fs.dir && Refers(fs, d, n, c)
    case File(c) => c < 2 || (c !in fs.dir && Refers(fs, d, n, c))
    case Odd => false
  }

  /** Behind the first end marker there is nothing but end markers. */
  ghost predicate CleanTail(ks: seq<Kind>)
  {
    forall i, j :: 0 <= i < j < |ks| && ks[i] == End ==> ks[j] == End
  }

  ghost predicate DirOk(fs: Fs, d: nat)
    requires d in fs.dir
  {
    CleanTail(fs.dir[d]) && forall n {:trigger SlotOk(fs, d, n, fs.dir[d][n])} :: 0 <= n < |fs.dir[d]| ==>
        SlotOk(fs, d, n, fs.dir[d][n])
  }

  /** The one slot that refers to chain c. */
  ghost predicate OwnerOk(fs: Fs, c: nat)
    requires c in fs.owner
  {
    var d, n := fs.owner[c].0, fs.owner[c].1;
    && d in fs.dir && n < |fs.dir[d]|
    && fs.dir[d][n] == if c in fs.dir then Sub(c) else File(c)
  }

  /** A healthy file system. */
  ghost predicate Healthy(fs: Fs)
  {
    && ChainsOk(fs) && fs.cwd in fs.dir
    && (forall d {:trigger DirOk(fs, d)} :: d in fs.dir ==> DirOk(fs, d))
    && (forall c {:trigger OwnerOk(fs, c)} :: c in fs.owner ==> OwnerOk(fs, c))
  }

  /** No live chain contains a free cluster. */
  lemma LiveIsNotFree(fs: Fs, c: nat, i: nat)
    requires ChainsOk(fs) && c in fs.chains && i < |fs.chains[c]|
    ensures 2 <= fs.chains[c][i] < |fs.fat| && fs.fat[fs.chains[c][i]] != 0
  {
    assert ChainOk(fs, c);
    if i < |fs.chains[c]| - 1 {
      assert fs.fat[fs.chains[c][i]] == fs.chains[c][i + 1];
    }
  }

  // ---------------------------------------------------------------------
  // One slot of one directory
  // ---------------------------------------------------------------------

  function PutSlot(fs: Fs, d: nat, n: nat, k: Kind): Fs
    requires d in fs.dir && n < |fs.dir[d]|
  {
    fs.(dir := fs.dir[d := fs.dir[d][n := k]])
  }

  lemma PutKeepsChains(fs: Fs, d: nat, n: nat, k: Kind)
    requires ChainsOk(fs) && d in fs.dir && n < |fs.dir[d]|
    ensures ChainsOk(PutSlot(fs, d, n, k))
  {
    var fs1 := PutSlot(fs, d, n, k);
    forall c | c in fs.chains ensures ChainOk(fs1, c) {
      assert ChainOk(fs, c);
    }
  }

  /** A slot that no chain is booked under can be rewritten with anything that
      fits the tree as it is. */
  lemma PutIsHealthy(fs: Fs, d: nat, n: nat, k: Kind)
    requires Healthy(fs) && d in fs.dir && n < |fs.dir[d]|
    requires forall c :: c in fs.owner ==> fs.owner[c] != (d, n)
    requires CleanTail(fs.dir[d][n := k]) && SlotOk(fs, d, n, k)
    ensures Healthy(PutSlot(fs, d, n, k))
  {
    var fs1 := PutSlot(fs, d, n, k);
    PutKeepsChains(fs, d, n, k);
    forall b | b in fs1.dir ensures DirOk(fs1, b) {
      assert DirOk(fs, b);
      forall m | 0 <= m < |fs1.dir[b]| ensures SlotOk(fs1, b, m, fs1.dir[b][m]) {
        assert SlotOk(fs, b, m, if b == d && m == n then k else fs.dir[b][m]);
      }
    }
    forall c | c in fs1.owner ensures OwnerOk(fs1, c) {
      assert OwnerOk(fs, c);
    }
  }

  // ---------------------------------------------------------------------
  // Removing a chain and its slot
  // ---------------------------------------------------------------------

  /** The slot of chain c deleted and the chain freed. */
  function Remove(fs: Fs, c: nat): Fs
    requires c in fs.chains && c in fs.owner && fs.owner[c].0 in fs.dir && fs.owner[c].1 < |fs.dir[fs.owner[c].0]|
  {
    var d, n := fs.owner[c].0, fs.owner[c].1;
    fs.(fat := Freed(fs.fat, fs.chains[c]), dir := fs.dir[d := fs.dir[d][n := Gone]] - {c},
        chains := fs.chains - {c}, owner := fs.owner - {c})
  }

  /** No slot refers to a file or a subdirectory. */
  predicate NoFiles(ks: seq<Kind>)
  {
    forall n :: 0 <= n < |ks| ==> !ks[n].Sub? && !ks[n].File?
  }

  lemma RemoveKeepsChain(fs: Fs, c: nat, b: nat)
    requires ChainsOk(fs) && c in fs.chains && OwnerOk(fs, c) && b in fs.chains && b != c
    ensures ChainOk(Remove(fs, c), b)
  {
    assert ChainOk(fs, b) && ChainOk(fs, c) && !Cross(fs.chains[b], fs.chains[c]);
    FreeKeepsOtherChain(fs.fat, fs.chains[c], fs.chains[b]);
  }

  lemma RemoveKeepsChains(fs: Fs, c: nat)
    requires ChainsOk(fs) && c in fs.chains && OwnerOk(fs, c)
    ensures ChainsOk(Remove(fs, c))
  {
    var fs1 := Remove(fs, c);
    assert ChainOk(fs, c);
    forall b | b in fs1.chains ensures ChainOk(fs1, b) {
      RemoveKeepsChain(fs, c, b);
    }
  }

  lemma RemoveKeepsDir(fs: Fs, c: nat, b: nat)
    requires Healthy(fs) && c in fs.chains && b in fs.dir && b != c
    ensures OwnerOk(fs, c) && DirOk(Remove(fs, c), b)
  {
    assert OwnerOk(fs, c) && DirOk(fs, b);
    var d, n := fs.owner[c].0, fs.owner[c].1;
    var fs1 := Remove(fs, c);
    forall m | 0 <= m < |fs1.dir[b]| ensures SlotOk(fs1, b, m, fs1.dir[b][m]) {
      assert SlotOk(fs, b, m, fs.dir[b][m]);
      assert (b == d && m == n) || fs1.dir[b][m] == fs.dir[b][m];
    }
  }

  lemma RemoveKeepsOwner(fs: Fs, c: nat, a: nat)
    requires Healthy(fs) && c in fs.chains && a in fs.owner && a != c
    requires c in fs.dir ==> NoFiles(fs.dir[c])
    ensures OwnerOk(fs, c) && OwnerOk(Remove(fs, c), a)
  {
    assert OwnerOk(fs, a) && OwnerOk(fs, c);
  }

  /** Deleting the slot of a file, or of an empty directory other than the
      current one, and freeing its chain, keeps the file system healthy. */
  lemma RemoveIsHealthy(fs: Fs, c: nat)
    requires Healthy(fs) && c in fs.chains && fs.cwd != c
    requires c in fs.dir ==> NoFiles(fs.dir[c])
    ensures OwnerOk(fs, c) && Healthy(Remove(fs, c))
  {
    assert OwnerOk(fs, c);
    var fs1 := Remove(fs, c);
    RemoveKeepsChains(fs, c);
    forall b | b in fs1.dir ensures DirOk(fs1, b) {
      RemoveKeepsDir(fs, c, b);
    }
    forall a | a in fs1.owner ensures OwnerOk(fs1, a) {
      RemoveKeepsOwner(fs, c, a);
    }
  }

  // ---------------------------------------------------------------------
  // A new directory
  // ---------------------------------------------------------------------

  /** A cluster claimed as a chain of its own, which nothing refers to yet. */
  function Claim(fs: Fs, c: nat): Fs
    requires c < |fs.fat|
  {
    fs.(fat := fs.fat[c := LAST])
  }

  lemma FreeIsUnclaimed(fs: Fs, c: nat, b: nat)
    requires ChainsOk(fs) && 2 <= c < |fs.fat| && fs.fat[c] == 0 && b in fs.chains
    ensures c !in fs.chains[b] && b != c
  {
    assert ChainOk(fs, b);
    if c in fs.chains[b] {
      var i :| 0 <= i < |fs.chains[b]| && fs.chains[b][i] == c;
      LiveIsNotFree(fs, b, i);
    }
  }

  /** Claiming a free cluster cross-links nothing; if mkdir stops here the
      cluster is lost but the file system is healthy. */
  lemma ClaimIsHealthy(fs: Fs, c: nat)
    requires Healthy(fs) && 2 <= c < |fs.fat| && fs.fat[c] == 0
    ensures Healthy(Claim(fs, c))
  {
    var fs1 := Claim(fs, c);
    forall b | b in fs1.chains ensures ChainOk(fs1, b) {
      assert ChainOk(fs, b);
      FreeIsUnclaimed(fs, c, b);
      ChainFrame(fs.fat, fs1.fat, fs.chains[b]);
    }
    forall b | b in fs1.dir ensures DirOk(fs1, b) {
      assert DirOk(fs, b);
      forall m | 0 <= m < |fs1.dir[b]| ensures SlotOk(fs1, b, m, fs1.dir[b][m]) {
        assert SlotOk(fs, b, m, fs.dir[b][m]);
      }
    }
    forall a | a in fs1.owner ensures OwnerOk(fs1, a) {
      assert OwnerOk(fs, a);
    }
  }

  /** The slots of a directory fresh from mkdir. */
  predicate FreshDir(ks: seq<Kind>, c: nat, parent: nat)
  {
    |ks| >= 2 && ks[0] == Self(c) && ks[1] == Up(parent) && forall i :: 2 <= i < |ks| ==> ks[i] == End
  }

  /** The claimed cluster c becomes the directory that slot n of d names. */
  function Adopt(fs: Fs, d: nat, n: nat, c: nat, ks: seq<Kind>): Fs
    requires d in fs.dir && n < |fs.dir[d]|
  {
    fs.(dir := fs.dir[d := fs.dir[d][n := Sub(c)]][c := ks], chains := fs.chains[c := [c]],
        owner := fs.owner[c := (d, n)])
  }

  lemma AdoptKeepsChains(fs: Fs, d: nat, n: nat, c: nat, ks: seq<Kind>)
    requires ChainsOk(fs) && d in fs.dir && n < |fs.dir[d]|
    requires 2 <= c < fs.limit && fs.fat[c] == LAST && c !in fs.dir
    requires forall b :: b in fs.chains ==> b != c && c !in fs.chains[b]
    ensures ChainsOk(Adopt(fs, d, n, c, ks))
  {
    var fs1 := Adopt(fs, d, n, c, ks);
    forall b | b in fs1.chains ensures ChainOk(fs1, b) {
      if b != c {
        assert ChainOk(fs, b);
      }
    }
    forall a, b | a in fs1.chains && b in fs1.chains && a != b ensures !Cross(fs1.chains[a], fs1.chains[b]) {
      if a != c && b != c {
        assert !Cross(fs.chains[a], fs.chains[b]);
      }
    }
  }

  lemma AdoptKeepsDir(fs: Fs, d: nat, n: nat, c: nat, ks: seq<Kind>, b: nat)
    requires Healthy(fs) && d in fs.dir && n < |fs.dir[d]| && c !in fs.dir && c !in fs.owner && b in fs.dir
    requires CleanTail(fs.dir[d][n := Sub(c)])
    ensures DirOk(Adopt(fs, d, n, c, ks), b)
  {
    var fs1 := Adopt(fs, d, n, c, ks);
    assert DirOk(fs, b);
    forall m | 0 <= m < |fs1.dir[b]| ensures SlotOk(fs1, b, m, fs1.dir[b][m]) {
      assert SlotOk(fs, b, m, fs.dir[b][m]);
      assert (b == d && m == n) || fs1.dir[b][m] == fs.dir[b][m];
    }
  }

  /** Entering a new directory into the tree keeps it healthy. */
  lemma AdoptIsHealthy(fs: Fs, d: nat, n: nat, c: nat, ks: seq<Kind>)
    requires Healthy(fs) && d in fs.dir && n < |fs.dir[d]|
    requires forall a :: a in fs.owner ==> fs.owner[a] != (d, n)
    requires CleanTail(fs.dir[d][n := Sub(c)]) && FreshDir(ks, c, d)
    requires 2 <= c < fs.limit && fs.fat[c] == LAST && c !in fs.dir
    requires forall b :: b in fs.chains ==> b != c && c !in fs.chains[b]
    ensures Healthy(Adopt(fs, d, n, c, ks))
  {
    var fs1 := Adopt(fs, d, n, c, ks);
    AdoptKeepsChains(fs, d, n, c, ks);
    forall b | b in fs1.dir ensures DirOk(fs1, b) {
      if b == c {
        forall m | 0 <= m < |ks| ensures SlotOk(fs1, c, m, fs1.dir[c][m]) {
        }
      } else {
        AdoptKeepsDir(fs, d, n, c, ks, b);
      }
    }
    forall a | a in fs1.owner ensures OwnerOk(fs1, a) {
      if a != c {
        assert OwnerOk(fs, a);
      }
    }
  }

  /** Moving to another live directory. */
  lemma MoveIsHealthy(fs: Fs, d: nat)
    requires Healthy(fs) && d in fs.dir
    ensures Healthy(fs.(cwd := d))
  {
    var fs1 := fs.(cwd := d);
    forall c | c in fs1.chains ensures ChainOk(fs1, c) {
      assert ChainOk(fs, c);
    }
    forall b | b in fs1.dir ensures DirOk(fs1, b) {
      assert DirOk(fs, b);
      forall n | 0 <= n < |fs1.dir[b]| ensures SlotOk(fs1, b, n, fs1.dir[b][n]) {
        assert SlotOk(fs, b, n, fs.dir[b][n]);
      }
    }
    forall c | c in fs1.owner ensures OwnerOk(fs1, c) {
      assert OwnerOk(fs, c);
    }
  }
}
