/** boot/efi/bootloader.c, lines 265 to 285 and 310 to 330: the search for a name in an ext2
    directory that was read into a buffer. */
module Directory {
  import opened Machine

  type Byte = x: nat | x < 0x100
  type Bytes = seq<Byte>

  // inode (4 bytes), rec_len (2), name_len (1), file_type (1), name
  const HEADER: nat := 8

  function RecLen(buf: Bytes, off: nat): nat
    requires off + HEADER <= |buf|
  {
    var lo: nat, hi: nat := buf[off + 4], buf[off + 5];
    lo + 0x100 * hi
  }

  function NameLen(buf: Bytes, off: nat): nat
    requires off + HEADER <= |buf|
  {
    buf[off + 6]
  }

  // A record at off whose name fits into it and which fits into the buffer.
  predicate Record(buf: Bytes, off: nat) {
    && off + HEADER <= |buf|
    && HEADER + NameLen(buf, off) <= RecLen(buf, off) && off + RecLen(buf, off) <= |buf|
  }

  // Where record k + 1 starts, or where the last one ends.
  function After(rs: seq<nat>, k: nat, end: nat): nat { if k + 1 < |rs| then rs[k + 1] else end }

  /** rs lists the offsets of the records that fill the buffer exactly, one behind the other. */
  predicate Fills(buf: Bytes, rs: seq<nat>) {
    && (if rs == [] then buf == [] else rs[0] == 0)
    && (forall k :: 0 <= k < |rs| ==> Record(buf, rs[k]))
    && (forall k {:trigger After(rs, k, |buf|)} :: 0 <= k < |rs| ==> After(rs, k, |buf|) == rs[k] + RecLen(buf, rs[k]))
  }

  // A buffer has one such list only.
  lemma {:induction false} SameRecords(buf: Bytes, rs: seq<nat>, rs': seq<nat>, k: nat)
    requires Fills(buf, rs) && Fills(buf, rs') && k < |rs|
    ensures k < |rs'| && rs'[k] == rs[k]
  {
    if k > 0 {
      SameRecords(buf, rs, rs', k - 1);
      assert After(rs, k - 1, |buf|) == rs[k] && After(rs', k - 1, |buf|) == rs[k];
    }
  }

  /** Bytes 4 and 5 of a record, the low one first, say how far on the next one begins. */
  lemma RecordsFollow(buf: Bytes, rs: seq<nat>, k: nat)
    requires Fills(buf, rs) && k < |rs|
    ensures var next := rs[k] + buf[rs[k] + 4] as nat + 0x100 * buf[rs[k] + 5] as nat;
            if k + 1 < |rs| then rs[k + 1] == next else |buf| == next
  {
    assert After(rs, k, |buf|) == rs[k] + RecLen(buf, rs[k]);
  }

  lemma {:induction false} RecordsGrow(buf: Bytes, rs: seq<nat>, j: nat, k: nat)
    requires Fills(buf, rs) && j < k < |rs|
    ensures rs[j] + HEADER <= rs[k]
  {
    assert After(rs, k - 1, |buf|) == rs[k];
    if j < k - 1 { RecordsGrow(buf, rs, j, k - 1); }
  }

  // ----- what the comparison finds -----

  // What strncmpa compares: the bytes at the name, wherever the name ends.
  predicate Matches(buf: Bytes, off: nat, target: Bytes) {
    off + HEADER + |target| <= |buf| && buf[off + HEADER..off + HEADER + |target|] == target
  }

  /** Record number k is the first that matches. */
  predicate FirstMatch(buf: Bytes, rs: seq<nat>, target: Bytes, k: nat) {
    k < |rs| && Matches(buf, rs[k], target) && forall j :: 0 <= j < k ==> !Matches(buf, rs[j], target)
  }

  lemma {:induction false} FirstMatchExists(buf: Bytes, rs: seq<nat>, target: Bytes, m: nat)
    requires m < |rs| && Matches(buf, rs[m], target)
    ensures exists k :: 0 <= k <= m && FirstMatch(buf, rs, target, k)
  {
    if j :| 0 <= j < m && Matches(buf, rs[j], target) {
      FirstMatchExists(buf, rs, target, j);
    } else {
      assert FirstMatch(buf, rs, target, m);
    }
  }

  function Name(buf: Bytes, off: nat): Bytes
    requires Record(buf, off)
  {
    buf[off + HEADER..off + HEADER + NameLen(buf, off)]
  }

  // A name that starts with the target, or that is shorter and is completed to the target by the
  // bytes behind it: padding left over from another name, or the next record.
  predicate Shadows(buf: Bytes, off: nat, target: Bytes)
    requires Record(buf, off)
  {
    if |target| <= NameLen(buf, off) then target <= Name(buf, off)
    else
      && Name(buf, off) == target[..NameLen(buf, off)]
      && target[NameLen(buf, off)..] <= buf[off + HEADER + NameLen(buf, off)..]
  }

  lemma MatchesIsShadows(buf: Bytes, off: nat, target: Bytes)
    requires Record(buf, off)
    ensures Matches(buf, off, target) <==> Shadows(buf, off, target)
  {
    var at, n := off + HEADER, NameLen(buf, off);
    if |target| <= n {
      assert Name(buf, off)[..|target|] == buf[at..at + |target|];
    } else if at + |target| <= |buf| {
      assert buf[at..at + |target|] == Name(buf, off) + buf[at + n..][..|target| - n];
      assert target == target[..n] + target[n..];
    }
  }

  /** In a directory where record m bears the wanted name, the first match is record m exactly when
      no earlier record shadows the name. */
  lemma NamedIsFirstIff(buf: Bytes, rs: seq<nat>, target: Bytes, m: nat, k: nat)
    requires Fills(buf, rs) && FirstMatch(buf, rs, target, k)
    requires m < |rs| && Name(buf, rs[m]) == target
    ensures rs[k] == rs[m] <==> forall j :: 0 <= j < m ==> !Shadows(buf, rs[j], target)
  {
    MatchesIsShadows(buf, rs[m], target);
    forall j | 0 <= j < |rs| ensures Matches(buf, rs[j], target) <==> Shadows(buf, rs[j], target) {
      MatchesIsShadows(buf, rs[j], target);
    }
    if k < m { RecordsGrow(buf, rs, k, m); }
  }

  // Every name is followed by a 0 byte or by the end of the buffer.
  predicate ZeroBehind(buf: Bytes, rs: seq<nat>)
    requires Fills(buf, rs)
  {
    forall j :: 0 <= j < |rs| ==>
      var behind := rs[j] + HEADER + NameLen(buf, rs[j]);
      behind < |buf| ==> buf[behind] == 0
  }

  /** With names that are followed by 0, only a longer name can shadow one without a 0 byte. */
  lemma ShadowsWhenZeroBehind(buf: Bytes, rs: seq<nat>, target: Bytes, j: nat)
    requires Fills(buf, rs) && ZeroBehind(buf, rs) && 0 !in target && j < |rs|
    ensures Shadows(buf, rs[j], target) <==> target <= Name(buf, rs[j])
  {
    var n := NameLen(buf, rs[j]);
    if n < |target| { assert target[n..][0] == target[n] && target[n] in target; }
  }

  // ----- the code -----

  // strncmpa, byte by byte up to the first difference.
  method SameName(buf: array<Byte>, at: nat, target: Bytes) returns (same: bool)
    requires at + |target| <= buf.Length
    ensures same == (buf[..][at..at + |target|] == target)
  {
    var j := 0;
    while j < |target| && buf[at + j] == target[j]
      invariant j <= |target| && buf[at..at + j] == target[..j]
    {
      j := j + 1;
    }
    same := j == |target|;
    if !same { assert buf[..][at..at + |target|][j] != target[j]; }
    assert buf[..][at..at + |target|] == buf[at..at + |target|];
  }

  method ReadRecLen(buf: array<Byte>, off: nat) returns (n: nat)
    requires off + HEADER <= buf.Length
    ensures n == RecLen(buf[..], off) == buf[off + 4] as nat + 0x100 * buf[off + 5] as nat
  {
    var lo: nat, hi: nat := buf[off + 4], buf[off + 5];
    n := lo + 0x100 * hi;
  }

  // The walk has reached record i, at offset tmp, and will stop at record k.
  predicate OnTheWay(buf: Bytes, rs: seq<nat>, target: Bytes, k: nat, i: nat, tmp: nat) {
    Fills(buf, rs) && FirstMatch(buf, rs, target, k) && i <= k && tmp == rs[i] && i <= tmp
  }

  // There the record is readable as far as the walk needs, and record k alone matches.
  lemma WalkStep(buf: Bytes, rs: seq<nat>, target: Bytes, k: nat, i: nat, tmp: nat)
    requires OnTheWay(buf, rs, target, k, i, tmp)
    ensures tmp + HEADER + |target| <= |buf| && HEADER <= RecLen(buf, tmp)
    ensures buf[tmp + HEADER..tmp + HEADER + |target|] == target <==> i == k
    ensures i < k ==> OnTheWay(buf, rs, target, k, i + 1, tmp + RecLen(buf, tmp))
  {
    if i < k {
      RecordsGrow(buf, rs, i, k);
      assert After(rs, i, |buf|) == rs[i + 1];
      assert !Matches(buf, rs[i], target);
    }
  }

  // The loop, with the number of the record at which it stops.
  method Walk(buf: array<Byte>, target: Bytes, ghost rs: seq<nat>, ghost k: nat) returns (r: Option<nat>)
    requires Fills(buf[..], rs) && FirstMatch(buf[..], rs, target, k)
    ensures r == Some(rs[k])
  {
    var tmp, i := 0, 0;
    ghost var bytes := buf[..];
    while true
      invariant OnTheWay(bytes, rs, target, k, i, tmp)
      decreases buf.Length - tmp
    {
      WalkStep(bytes, rs, target, k, i, tmp);
      var same := SameName(buf, tmp + HEADER, target);
      if same {
        return Some(tmp);
      }
      if i > buf.Length {
        return None;
      }
      var recLen := ReadRecLen(buf, tmp);
      tmp := tmp + recLen;
      i := i + 1;
    }
  }

  /** The walk over a well-formed directory that holds a matching record stops at the first one,
      inside the buffer; the counter test never fires. So a record that bears the wanted name is found
      exactly when no earlier record shadows it. (The branch for a record whose rec_len is too short
      for its name is not taken in a well-formed directory.) */
  method Find(buf: array<Byte>, target: Bytes, ghost rs: seq<nat>) returns (r: Option<nat>)
    requires Fills(buf[..], rs) && exists m :: 0 <= m < |rs| && Matches(buf[..], rs[m], target)
    ensures exists k :: 0 <= k < |rs| && FirstMatch(buf[..], rs, target, k) && r == Some(rs[k])
    ensures forall m :: 0 <= m < |rs| && Name(buf[..], rs[m]) == target ==>
              (r == Some(rs[m]) <==> forall j :: 0 <= j < m ==> !Shadows(buf[..], rs[j], target))
  {
    ghost var m :| 0 <= m < |rs| && Matches(buf[..], rs[m], target);
    FirstMatchExists(buf[..], rs, target, m);
    ghost var k :| 0 <= k <= m && FirstMatch(buf[..], rs, target, k);
    FoundNamed(buf[..], rs, target, k);
    r := Walk(buf, target, rs, k);
  }

  lemma FoundNamed(buf: Bytes, rs: seq<nat>, target: Bytes, k: nat)
    requires Fills(buf, rs) && FirstMatch(buf, rs, target, k)
    ensures forall m :: 0 <= m < |rs| && Name(buf, rs[m]) == target ==>
              (rs[k] == rs[m] <==> forall j :: 0 <= j < m ==> !Shadows(buf, rs[j], target))
  {
    forall m | 0 <= m < |rs| && Name(buf, rs[m]) == target
      ensures rs[k] == rs[m] <==> forall j :: 0 <= j < m ==> !Shadows(buf, rs[j], target)
    {
      NamedIsFirstIff(buf, rs, target, m, k);
    }
  }

  // ----- two directories in which the search goes wrong -----

  const BOOT: Bytes := [98, 111, 111, 116]

  // A directory entry with a one-byte length; the bytes behind the name are given with it.
  function Entry(inode: Byte, recLen: Byte, nameLen: Byte, bytes: Bytes): (e: Bytes)
    ensures |e| == HEADER + |bytes| && e[HEADER..] == bytes
    ensures RecLen(e, 0) == recLen && NameLen(e, 0) == nameLen
  {
    [inode, 0, 0, 0, recLen, 0, nameLen, 2] + bytes
  }

  // Two entries that fill a buffer.
  lemma TwoEntries(i: Byte, n: Byte, bytes: Bytes, j: Byte, n': Byte, bytes': Bytes)
    requires HEADER + |bytes| < 0x100 && HEADER + |bytes'| < 0x100 && n <= |bytes| && n' <= |bytes'|
    ensures var buf := Entry(i, HEADER + |bytes|, n, bytes) + Entry(j, HEADER + |bytes'|, n', bytes');
            && Fills(buf, [0, HEADER + |bytes|])
            && Name(buf, 0) == bytes[..n] && Name(buf, HEADER + |bytes|) == bytes'[..n']
            && buf[HEADER..HEADER + |bytes|] == bytes
  {
    var x, y := Entry(i, HEADER + |bytes|, n, bytes), Entry(j, HEADER + |bytes'|, n', bytes');
    var buf := x + y;
    assert RecLen(buf, 0) == RecLen(x, 0) && NameLen(buf, 0) == NameLen(x, 0);
    assert RecLen(buf, |x|) == RecLen(y, 0) && NameLen(buf, |x|) == NameLen(y, 0);
    assert buf[HEADER..HEADER + |bytes|] == x[HEADER..] == bytes;
    assert buf[|x| + HEADER..] == y[HEADER..] == bytes';
    assert Name(buf, 0) == bytes[..n];
    assert Name(buf, |x|) == buf[|x| + HEADER..][..n'];
  }

  /** A search for "boot" can stop at a longer name, "bootx", although "boot" is there. */
  lemma LongerNameFound()
    ensures var buf := Entry(1, 16, 5, BOOT + [120, 0, 0, 0]) + Entry(2, 12, 4, BOOT);
            && Fills(buf, [0, 16]) && Name(buf, 0) == BOOT + [120] && Name(buf, 16) == BOOT
            && FirstMatch(buf, [0, 16], BOOT, 0)
  {
    TwoEntries(1, 5, BOOT + [120, 0, 0, 0], 2, 4, BOOT);
    var buf := Entry(1, 16, 5, BOOT + [120, 0, 0, 0]) + Entry(2, 12, 4, BOOT);
    assert buf[8..12] == buf[8..16][..4];
  }

  /** And at a shorter one, "bo", through the bytes left over behind it. */
  lemma ShorterNameFound()
    ensures var buf := Entry(1, 12, 2, BOOT) + Entry(2, 12, 4, BOOT);
            && Fills(buf, [0, 12]) && Name(buf, 0) == BOOT[..2] && Name(buf, 12) == BOOT
            && FirstMatch(buf, [0, 12], BOOT, 0)
  {
    TwoEntries(1, 2, BOOT, 2, 4, BOOT);
  }
}
