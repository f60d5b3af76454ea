/**
 The permission decoder: a file type and a numeric POSIX mode become
 the symbolic string shown in the first column of a long listing,
 such as `drwxr-xr-x`.
 */
module Permissions {
  import opened Basics
  import opened Files

  /** `get_perm_str`: the symbolic form of one 3-bit permission triplet, by its lookup table. */
  function PermStr(perm: u32): (s: string)
    ensures perm < 8 && perm != 3 ==> |s| == 3
    ensures perm == 3 || perm >= 8 ==> s == ""
  {
    match perm
    case 0 => "---"
    case 1 => "--x"
    case 2 => "-w-"
    case 4 => "r--"
    case 5 => "r-x"
    case 6 => "rw-"
    case 7 => "rwx"
    case _ => ""
  }

  /** The leading character of the permission string. */
  function TypeChar(t: FileType): char {
    match t
    case Dir => 'd'
    case File => '-'
    case Symlink(_) => 'l'
  }

  function OwnerTriplet(mode: nat): nat { (mode / 64) % 8 }
  function GroupTriplet(mode: nat): nat { (mode / 8) % 8 }
  function OtherTriplet(mode: nat): nat { mode % 8 }

  /** How many of the three triplets of `mode` hit the table's missing entry 3. */
  function Gaps(mode: nat): (n: nat)
    ensures n <= 3
  {
    (if OwnerTriplet(mode) == 3 then 1 else 0)
    + (if GroupTriplet(mode) == 3 then 1 else 0)
    + (if OtherTriplet(mode) == 3 then 1 else 0)
  }

  /** The mode string of an entry of type `t` with mode bits `mode`. */
  function GetMode(t: FileType, mode: u32): (s: string)
    ensures |s| == 10 - 3 * Gaps(mode)
    ensures s[0] == TypeChar(t)
  {
    [TypeChar(t)]
    + PermStr(OwnerTriplet(mode))
    + PermStr(GroupTriplet(mode))
    + PermStr(OtherTriplet(mode))
  }

  // ---------------------------------------------------------------------
  // Reference reading of the mode bits, independent of the lookup table.
  // ---------------------------------------------------------------------

  /** `rwx` with every letter whose bit in the 3-bit value `p` is clear replaced by `-`. */
  function TripletSymbolic(p: nat): (s: string)
    ensures |s| == 3
  {
    [if (p / 4) % 2 == 1 then 'r' else '-',
     if (p / 2) % 2 == 1 then 'w' else '-',
     if p % 2 == 1 then 'x' else '-']
  }

  /** The weight of the mode bit shown at position `k` of the nine permission characters. */
  function BitWeight(k: nat): nat
    requires k < 9
  {
    [256, 128, 64, 32, 16, 8, 4, 2, 1][k]
  }

  /**
   The POSIX reading of the low nine mode bits: position `k` shows the
   letter of `rwxrwxrwx` when the mode bit of weight 2^(8-k) is set,
   `-` otherwise.
   */
  function Symbolic(mode: nat): (s: string)
    ensures |s| == 9
  {
    seq(9, k requires 0 <= k < 9 => if (mode / BitWeight(k)) % 2 == 1 then "rwxrwxrwx"[k] else '-')
  }

  /** The table agrees with the bit reading on every value it covers. */
  lemma PermStrIsSymbolic(perm: u32)
    requires perm < 8 && perm != 3
    ensures PermStr(perm) == TripletSymbolic(perm)
  {
  }

  /** Reducing modulo 8 keeps the three low bits. */
  lemma LowBitsOfTriplet(x: nat)
    ensures ((x % 8) / 4) % 2 == (x / 4) % 2
    ensures ((x % 8) / 2) % 2 == (x / 2) % 2
    ensures (x % 8) % 2 == x % 2
  {
    HighBitOfTriplet(x);
    MiddleBitOfTriplet(x);
    LowBitOfTriplet(x);
  }

  lemma HighBitOfTriplet(x: nat)
    ensures ((x % 8) / 4) % 2 == (x / 4) % 2
  {
    var q := x / 8;
    var r := x % 8;
    assert x / 4 == 2 * q + r / 4;
    ModTwoShift(q, r / 4);
  }

  lemma MiddleBitOfTriplet(x: nat)
    ensures ((x % 8) / 2) % 2 == (x / 2) % 2
  {
    var q := x / 8;
    var r := x % 8;
    assert x / 2 == 2 * (2 * q) + r / 2;
    ModTwoShift(2 * q, r / 2);
  }

  lemma LowBitOfTriplet(x: nat)
    ensures (x % 8) % 2 == x % 2
  {
    var q := x / 8;
    var r := x % 8;
    assert x == 2 * (4 * q) + r;
    ModTwoShift(4 * q, r);
  }

  /** Adding an even number keeps the lowest bit. */
  lemma ModTwoShift(k: nat, y: nat)
    ensures (2 * k + y) % 2 == y % 2
  {
  }

  lemma DivChain(mode: nat)
    ensures mode / 64 / 4 == mode / 256
    ensures mode / 64 / 2 == mode / 128
    ensures mode / 8 / 4 == mode / 32
    ensures mode / 8 / 2 == mode / 16
  {
  }

  /** The owner triplet's bits are the mode bits of weight 256, 128 and 64. */
  lemma OwnerTripletBits(mode: nat)
    ensures (OwnerTriplet(mode) / 4) % 2 == (mode / 256) % 2
    ensures (OwnerTriplet(mode) / 2) % 2 == (mode / 128) % 2
    ensures OwnerTriplet(mode) % 2 == (mode / 64) % 2
  {
    LowBitsOfTriplet(mode / 64);
    DivChain(mode);
  }

  /** The group triplet's bits are the mode bits of weight 32, 16 and 8. */
  lemma GroupTripletBits(mode: nat)
    ensures (GroupTriplet(mode) / 4) % 2 == (mode / 32) % 2
    ensures (GroupTriplet(mode) / 2) % 2 == (mode / 16) % 2
    ensures GroupTriplet(mode) % 2 == (mode / 8) % 2
  {
    LowBitsOfTriplet(mode / 8);
    DivChain(mode);
  }

  /** The other triplet's bits are the mode bits of weight 4, 2 and 1. */
  lemma OtherTripletBits(mode: nat)
    ensures (OtherTriplet(mode) / 4) % 2 == (mode / 4) % 2
    ensures (OtherTriplet(mode) / 2) % 2 == (mode / 2) % 2
    ensures OtherTriplet(mode) % 2 == mode % 2
  {
    LowBitsOfTriplet(mode);
  }

  lemma SymbolicOwner(mode: nat)
    ensures Symbolic(mode)[..3] == TripletSymbolic(OwnerTriplet(mode))
  {
    OwnerTripletBits(mode);
    var s := Symbolic(mode);
    var e := TripletSymbolic(OwnerTriplet(mode));
    assert s[0] == e[0] && s[1] == e[1] && s[2] == e[2];
  }

  lemma SymbolicGroup(mode: nat)
    ensures Symbolic(mode)[3..6] == TripletSymbolic(GroupTriplet(mode))
  {
    GroupTripletBits(mode);
    var s := Symbolic(mode);
    var e := TripletSymbolic(GroupTriplet(mode));
    assert s[3] == e[0] && s[4] == e[1] && s[5] == e[2];
  }

  lemma SymbolicOther(mode: nat)
    ensures Symbolic(mode)[6..] == TripletSymbolic(OtherTriplet(mode))
  {
    OtherTripletBits(mode);
    var s := Symbolic(mode);
    var e := TripletSymbolic(OtherTriplet(mode));
    assert s[6] == e[0] && s[7] == e[1] && s[8] == e[2];
  }

  /** The bit reading of nine bits is the bit reading of the three triplets in turn. */
  lemma SymbolicByTriplets(mode: nat)
    ensures Symbolic(mode)
         == TripletSymbolic(OwnerTriplet(mode)) + TripletSymbolic(GroupTriplet(mode)) + TripletSymbolic(OtherTriplet(mode))
  {
    var s := Symbolic(mode);
    SymbolicOwner(mode);
    SymbolicGroup(mode);
    SymbolicOther(mode);
    assert s == s[..3] + s[3..6] + s[6..];
  }

  /**
   Wherever the table has an entry, the decoded string is the POSIX
   reading of the mode: the type character and the nine permission bits.
   */
  lemma GetModeIsSymbolic(t: FileType, mode: u32)
    requires Gaps(mode) == 0
    ensures GetMode(t, mode) == [TypeChar(t)] + Symbolic(mode)
  {
    SymbolicByTriplets(mode);
    PermStrIsSymbolic(OwnerTriplet(mode));
    PermStrIsSymbolic(GroupTriplet(mode));
    PermStrIsSymbolic(OtherTriplet(mode));
  }

  /** What the table contributes for a triplet value: its bit reading, or nothing for the missing entry 3. */
  function TripletShown(p: nat): (s: string)
    requires p < 8
  {
    if p == 3 then "" else TripletSymbolic(p)
  }

  /**
   For every mode, including those with a triplet equal to 3: the type
   character, then the owner, group and other triplets in that order,
   each read bit by bit, with a triplet of value 3 left out.
   */
  lemma GetModeByTriplets(t: FileType, mode: u32)
    ensures GetMode(t, mode)
         == [TypeChar(t)] + TripletShown(OwnerTriplet(mode)) + TripletShown(GroupTriplet(mode)) + TripletShown(OtherTriplet(mode))
  {
    PermStrShown(OwnerTriplet(mode));
    PermStrShown(GroupTriplet(mode));
    PermStrShown(OtherTriplet(mode));
  }

  lemma PermStrShown(p: nat)
    requires p < 8
    ensures PermStr(p) == TripletShown(p)
  {
    if p != 3 {
      PermStrIsSymbolic(p);
    }
  }

  /** Mode 0o736 keeps the owner triplet first even next to the gap: `-rwxrw-`. */
  lemma GetModeGapOrderExample()
    ensures GetMode(File, 478) == "-rwxrw-"
  {
    assert OwnerTriplet(478) == 7 && GroupTriplet(478) == 3 && OtherTriplet(478) == 6;
  }

  /** Bits above the low nine (file type, setuid, setgid, sticky) never show. */
  lemma GetModeLowNineBits(t: FileType, mode: u32)
    ensures GetMode(t, mode) == GetMode(t, mode % 512)
  {
    OwnerTripletLowNine(mode);
    GroupTripletLowNine(mode);
    OtherTripletLowNine(mode);
  }

  lemma OwnerTripletLowNine(mode: nat)
    ensures OwnerTriplet(mode) == OwnerTriplet(mode % 512)
  {
    var q := mode / 512;
    var r := mode % 512;
    assert mode / 64 == 8 * q + r / 64;
    assert r / 64 < 8;
  }

  lemma GroupTripletLowNine(mode: nat)
    ensures GroupTriplet(mode) == GroupTriplet(mode % 512)
  {
    var q := mode / 512;
    var r := mode % 512;
    assert mode / 8 == 8 * (8 * q) + r / 8;
  }

  lemma OtherTripletLowNine(mode: nat)
    ensures OtherTriplet(mode) == OtherTriplet(mode % 512)
  {
    var q := mode / 512;
    var r := mode % 512;
    assert mode == 8 * (64 * q) + r;
  }

  /** `mini-ls`'s unit tests `file_mode_777`, `file_mode_465` and `file_mode_000`: regular files whose modes also carry the file-type bits. */
  lemma GetModeExamples()
    ensures GetMode(File, 33279) == "-rwxrwxrwx"
    ensures GetMode(File, 33077) == "-r--rw-r-x"
    ensures GetMode(File, 32768) == "----------"
  {
    assert OwnerTriplet(33279) == 7 && GroupTriplet(33279) == 7 && OtherTriplet(33279) == 7;
    assert OwnerTriplet(33077) == 4 && GroupTriplet(33077) == 6 && OtherTriplet(33077) == 5;
    assert OwnerTriplet(32768) == 0 && GroupTriplet(32768) == 0 && OtherTriplet(32768) == 0;
  }

  // ---------------------------------------------------------------------
  // The gap at triplet value 3 and its correction.
  // ---------------------------------------------------------------------

  /** Mode 0o733 (`rwx-wx-wx`) decodes to a 4-character string instead of 10. */
  lemma GetModeGapExample()
    ensures GetMode(File, 475) == "-rwx"
    ensures |GetMode(File, 475)| == 4
  {
  }

  /** The table with the missing entry 3 filled in as `-wx`. */
  function PermStrFixed(perm: u32): (s: string)
    ensures perm < 8 ==> s == TripletSymbolic(perm)
    ensures perm != 3 ==> s == PermStr(perm)
  {
    if perm == 3 then "-wx" else PermStr(perm)
  }

  /** The decoder over the completed table: always ten characters, the POSIX reading of the mode. */
  function GetModeFixed(t: FileType, mode: u32): (s: string)
    ensures |s| == 10
    ensures s == [TypeChar(t)] + Symbolic(mode)
    ensures Gaps(mode) == 0 ==> s == GetMode(t, mode)
  {
    SymbolicByTriplets(mode);
    [TypeChar(t)]
    + PermStrFixed(OwnerTriplet(mode))
    + PermStrFixed(GroupTriplet(mode))
    + PermStrFixed(OtherTriplet(mode))
  }
}
