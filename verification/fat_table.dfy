/** The file allocation table (src/fs/fat.c:95-154, 564-575): 16-bit entries
    in the sectors of the first FAT copy, cluster allocation and the freeing
    of cluster chains. */
module FatTable {

  const END_MARK: nat := 0xFFF8
  const LAST: nat := 0xFFFF

  type Sector = seq<nat>

  // ---------------------------------------------------------------------
  // Entries as bytes
  // ---------------------------------------------------------------------

  /** Number of the sector and offset of the two bytes of entry c. */
  function SectorOf(c: nat): nat { 2 * c / 512 }
  function OffsetOf(c: nat): nat { 2 * c % 512 }

  /** The little-endian value at the entry's place. */
  function Word(s: Sector, off: nat): nat
    requires off + 1 < |s|
  {
    s[off] + 256 * s[off + 1]
  }

  function PutWord(s: Sector, off: nat, v: nat): Sector
    requires off + 1 < |s|
  {
    s[off := v % 256][off + 1 := v / 256]
  }

  /** All sectors are 512 bytes long. */
  predicate WellFormed(disk: seq<Sector>)
  {
    forall i :: 0 <= i < |disk| ==> |disk[i]| == 512
  }

  /** The FAT of n sectors starting at sector first, as 16-bit entries. */
  function Table(disk: seq<Sector>, first: nat, n: nat): (fat: seq<nat>)
    requires WellFormed(disk) && first + n <= |disk|
    ensures |fat| == 256 * n
  {
    seq<nat>(256 * n, c requires 0 <= c < 256 * n => Word(disk[first + SectorOf(c)], OffsetOf(c)))
  }

  /** The table on disk, byte by byte: 16-bit entries one after the other, low
      byte first. */
  lemma TableBytes(disk: seq<Sector>, first: nat, n: nat, k: nat)
    requires WellFormed(disk) && first + n <= |disk| && k < 512 * n
    requires forall i, j :: 0 <= i < |disk| && 0 <= j < 512 ==> disk[i][j] < 256
    ensures disk[first + k / 512][k % 512]
            == if k % 2 == 0 then Table(disk, first, n)[k / 2] % 256 else Table(disk, first, n)[k / 2] / 256
  {
    var c := k / 2;
    assert SectorOf(c) == k / 512 && OffsetOf(c) == k % 512 - k % 2;
    var s, off := disk[first + k / 512], OffsetOf(c);
    assert s[off] < 256 && s[off + 1] < 256;
  }

  lemma WordReadsBack(s: Sector, off: nat, v: nat)
    requires off + 1 < |s| && v < 0x1_0000
    ensures Word(PutWord(s, off, v), off) == v
    ensures forall o: nat :: o + 1 < |s| && o % 2 == off % 2 && o != off ==> Word(PutWord(s, off, v), o) == Word(s, o)
  {
  }

  /** Writing one entry on disk changes exactly that entry of the table. */
  lemma EntryWriteRefines(disk: seq<Sector>, first: nat, n: nat, c: nat, v: nat)
    requires WellFormed(disk) && first + n <= |disk| && c < 256 * n && v < 0x1_0000
    ensures var at := first + SectorOf(c);
            var disk1 := disk[at := PutWord(disk[at], OffsetOf(c), v)];
            WellFormed(disk1) && Table(disk1, first, n) == Table(disk, first, n)[c := v]
  {
    var at := first + SectorOf(c);
    var disk1 := disk[at := PutWord(disk[at], OffsetOf(c), v)];
    forall d | 0 <= d < 256 * n
      ensures Table(disk1, first, n)[d] == Table(disk, first, n)[c := v][d]
    {
      WordReadsBack(disk[at], OffsetOf(c), v);
      assert d != c ==> SectorOf(d) != SectorOf(c) || OffsetOf(d) != OffsetOf(c);
    }
  }

  // ---------------------------------------------------------------------
  // Allocation
  // ---------------------------------------------------------------------

  /** The lowest free cluster from c on, or |fat|. */
  function FirstFree(fat: seq<nat>, c: nat): (r: nat)
    requires c <= |fat|
    ensures c <= r <= |fat|
    ensures r < |fat| ==> fat[r] == 0
    ensures forall d :: c <= d < r ==> fat[d] != 0
    decreases |fat| - c
  {
    if c == |fat| || fat[c] == 0 then c else FirstFree(fat, c + 1)
  }

  /** fat_allocate_cluster: the table afterwards and the cluster, 0 for none. */
  function Allocate(fat: seq<nat>): (r: (seq<nat>, nat))
    ensures |r.0| == |fat|
  {
    if |fat| < 2 then (fat, 0)
    else
      var c := FirstFree(fat, 2);
      if c == |fat| then (fat, 0) else (fat[c := LAST], c)
  }

  /** The lowest free cluster from 2 up is claimed as a chain of its own; 0
      comes back exactly when there is none. */
  lemma AllocateClaimsLowest(fat: seq<nat>)
    ensures var (fat1, c) := Allocate(fat);
            && (c == 0 <==> forall d :: 2 <= d < |fat| ==> fat[d] != 0)
            && (c == 0 ==> fat1 == fat)
            && (c != 0 ==> 2 <= c < |fat| && fat[c] == 0 && fat1 == fat[c := LAST]
                           && (c < END_MARK ==> IsChain(fat1, [c]))
                           && forall d :: 2 <= d < c ==> fat[d] != 0)
  {
  }

  // ---------------------------------------------------------------------
  // Chains
  // ---------------------------------------------------------------------

  /** cs is a whole cluster chain: data clusters linked one to the next, the
      last one marked as the end, none twice. */
  ghost predicate IsChain(fat: seq<nat>, cs: seq<nat>)
  {
    && cs != []
    && (forall i :: 0 <= i < |cs| ==> 2 <= cs[i] < |fat| && cs[i] < END_MARK)
    && (forall i :: 0 <= i < |cs| - 1 ==> fat[cs[i]] == cs[i + 1])
    && fat[cs[|cs| - 1]] >= END_MARK
    && (forall i, j :: 0 <= i < j < |cs| ==> cs[i] != cs[j])
  }

  /** Every cluster of cs becomes free. */
  function Freed(fat: seq<nat>, cs: seq<nat>): (r: seq<nat>)
    ensures |r| == |fat|
  {
    seq<nat>(|fat|, c requires 0 <= c < |fat| => if c in cs then 0 else fat[c])
  }

  /** A chain is not disturbed by changes to other clusters. */
  lemma ChainFrame(fat: seq<nat>, fat1: seq<nat>, cs: seq<nat>)
    requires IsChain(fat, cs) && |fat1| == |fat|
    requires forall i :: 0 <= i < |cs| ==> fat1[cs[i]] == fat[cs[i]]
    ensures IsChain(fat1, cs)
  {
  }

  /** Two chains that begin alike are alike: links leave no choice. */
  lemma {:induction false} ChainsAgree(fat: seq<nat>, a: seq<nat>, b: seq<nat>, i: nat)
    requires IsChain(fat, a) && IsChain(fat, b) && a[0] == b[0] && i < |a|
    ensures i < |b| && a[i] == b[i]
  {
    if i > 0 {
      ChainsAgree(fat, a, b, i - 1);
      assert fat[a[i - 1]] == a[i];
      assert i - 1 < |b| - 1;
    }
  }

  lemma ChainUnique(fat: seq<nat>, a: seq<nat>, b: seq<nat>)
    requires IsChain(fat, a) && IsChain(fat, b) && a[0] == b[0]
    ensures a == b
  {
    ChainsAgree(fat, a, b, |a| - 1);
    ChainsAgree(fat, b, a, |b| - 1);
    forall i | 0 <= i < |a| ensures a[i] == b[i] {
      ChainsAgree(fat, a, b, i);
    }
  }

  /** Freeing one chain leaves a chain without common clusters whole. */
  lemma FreeKeepsOtherChain(fat: seq<nat>, cs: seq<nat>, other: seq<nat>)
    requires IsChain(fat, other) && forall i :: 0 <= i < |other| ==> other[i] !in cs
    ensures IsChain(Freed(fat, cs), other)
  {
  }
}
