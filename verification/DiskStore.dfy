/** The per-network directory of a node: one file per reserved address, the last-reserved marks and the block cache. */
module DiskStore {
  import opened Words
  import opened Blocks
  import opened Text

  const SPACE: set<char> := {' ', '\t', '\n', '\U{0B}', '\U{0C}', '\r', '\U{85}', '\U{A0}'}
  const LINE_BREAK: string := "\r\n"

  type Files = map<uint32, string>

  /** The content of the file of a reserved address. */
  function Record(id: string, ifname: string): string {
    Trim(id, SPACE) + LINE_BREAK + ifname
  }

  /** A content starts with `prefix` after trimming. */
  predicate HasPrefix(content: string, prefix: string) {
    prefix <= Trim(content, SPACE)
  }

  function Without(files: Files, prefix: string): Files {
    map a | a in files && !HasPrefix(files[a], prefix) :: files[a]
  }

  /** What ReleaseByID leaves: the records of the interface go, or all of the container's if it has none. */
  function AfterRelease(files: Files, id: string, ifname: string): Files {
    var rest := Without(files, Record(id, ifname));
    if rest != files then rest else Without(files, Trim(id, SPACE))
  }

  predicate OwnedBy(content: string, id: string, ifname: string) {
    HasPrefix(content, Record(id, ifname)) || Trim(content, SPACE) == Trim(id, SPACE)
  }

  function Owned(files: Files, id: string, ifname: string): set<uint32> {
    set a | a in files && OwnedBy(files[a], id, ifname)
  }

  /* ---------- the block cache as a list ---------- */

  function Canonicalized(s: seq<SimpleRange>): (c: seq<SimpleRange>)
    ensures |c| == |s|
    ensures forall i :: 0 <= i < |s| ==> c[i] == s[i].Canonicalize()
  {
    if s == [] then [] else [s[0].Canonicalize()] + Canonicalized(s[1..])
  }

  predicate AnyOverlaps(cache: seq<SimpleRange>, sr: SimpleRange) {
    exists i :: 0 <= i < |cache| && cache[i].Overlaps(sr)
  }

  /** AppendCache refuses a range that a cached one overlaps. */
  function Appended(cache: seq<SimpleRange>, sr: SimpleRange): Option<seq<SimpleRange>> {
    if AnyOverlaps(cache, sr) then None else Some(Canonicalized(cache + [sr]))
  }

  function RemoveFirst(cache: seq<SimpleRange>, sr: SimpleRange): seq<SimpleRange> {
    if cache == [] then []
    else if cache[0].Overlaps(sr) then cache[1..]
    else [cache[0]] + RemoveFirst(cache[1..], sr)
  }

  /** DeleteCache drops the first cached range that overlaps the given one. */
  function Deleted(cache: seq<SimpleRange>, sr: SimpleRange): seq<SimpleRange> {
    Canonicalized(RemoveFirst(cache, sr))
  }

  class Store {
    var files: Files
    var last: map<nat, uint32>
    var cache: seq<SimpleRange>

    constructor ()
      ensures files == map[] && last == map[] && cache == []
    {
      files, last, cache := map[], map[], [];
    }

    /** Creates the file of an address if there is none, and marks it as last reserved. */
    method Reserve(id: string, ifname: string, ip: uint32, rangeID: nat) returns (reserved: bool)
      modifies this`files, this`last
      ensures reserved <==> ip !in old(files)
      ensures files == if reserved then old(files)[ip := Record(id, ifname)] else old(files)
      ensures last == if reserved then old(last)[rangeID := ip] else old(last)
    {
      if ip in files {
        return false;
      }
      files := files[ip := Trim(id, SPACE) + LINE_BREAK + ifname];
      last := last[rangeID := ip];
      return true;
    }

    method LastReservedIP(rangeID: nat) returns (ip: Option<uint32>)
      ensures ip == if rangeID in last then Some(last[rangeID]) else None
    {
      ip := if rangeID in last then Some(last[rangeID]) else None;
    }

    method Release(ip: uint32)
      modifies this`files
      ensures files == old(files) - {ip}
    {
      files := files - {ip};
    }

    /** Removes every file whose trimmed content starts with `prefix`. */
    method ReleaseByKey(prefix: string) returns (found: bool)
      modifies this`files
      ensures files == Without(old(files), prefix)
      ensures found <==> files != old(files)
    {
      found := false;
      var rest := files.Keys;
      while rest != {}
        invariant rest <= old(files).Keys
        invariant files.Keys <= old(files).Keys && rest <= files.Keys
        invariant forall a :: a in files ==> files[a] == old(files)[a]
        invariant forall a :: a in old(files) && a !in rest ==> (a in files <==> !HasPrefix(old(files)[a], prefix))
        invariant found <==> files != old(files)
        decreases |rest|
      {
        var a :| a in rest;
        rest := rest - {a};
        if HasPrefix(files[a], prefix) {
          files := files - {a};
          assert a !in files && a in old(files);
          found := true;
        }
      }
    }

    method ReleaseByID(id: string, ifname: string)
      modifies this`files
      ensures files == AfterRelease(old(files), id, ifname)
    {
      var found := ReleaseByKey(Trim(id, SPACE) + LINE_BREAK + ifname);
      if !found {
        found := ReleaseByKey(Trim(id, SPACE));
      }
    }

    /** The addresses held by an interface of a container. */
    method GetByID(id: string, ifname: string) returns (ips: seq<uint32>)
      ensures forall a :: a in ips <==> a in Owned(files, id, ifname)
      ensures forall i, j :: 0 <= i < j < |ips| ==> ips[i] != ips[j]
    {
      ips := [];
      var rest := files.Keys;
      while rest != {}
        invariant rest <= files.Keys
        invariant forall a :: a in ips <==> a in Owned(files, id, ifname) && a !in rest
        invariant forall i, j :: 0 <= i < j < |ips| ==> ips[i] != ips[j]
        decreases |rest|
      {
        var a :| a in rest;
        rest := rest - {a};
        if HasPrefix(files[a], Trim(id, SPACE) + LINE_BREAK + ifname) || Trim(files[a], SPACE) == Trim(id, SPACE) {
          ips := ips + [a];
        }
      }
    }

    method LoadCache() returns (result: seq<SimpleRange>)
      ensures result == cache
    {
      result := [];
      for i := 0 to |cache|
        invariant result == cache[..i]
      {
        result := result + [cache[i]];
      }
    }

    /** Rewrites the cache file, one canonical range a line. */
    method FlashCache(srs: seq<SimpleRange>)
      modifies this`cache
      ensures cache == Canonicalized(srs)
    {
      hide Canonicalized;
      cache := [];
      for i := 0 to |srs|
        invariant cache == Canonicalized(srs)[..i]
      {
        cache := cache + [srs[i].Canonicalize()];
      }
    }

    method AppendCache(sr: SimpleRange) returns (ok: bool)
      modifies this`cache
      ensures ok <==> Appended(old(cache), sr).Some?
      ensures cache == if ok then Appended(old(cache), sr).value else old(cache)
    {
      var caches := LoadCache();
      for i := 0 to |caches|
        invariant cache == caches == old(cache)
        invariant forall j :: 0 <= j < i ==> !caches[j].Overlaps(sr)
      {
        if caches[i].Overlaps(sr) {
          return false;
        }
      }
      FlashCache(caches + [sr]);
      return true;
    }

    method DeleteCache(sr: SimpleRange)
      modifies this`cache
      ensures cache == Deleted(old(cache), sr)
    {
      var caches := LoadCache();
      var result := caches;
      for i := 0 to |caches|
        invariant result == caches
        invariant RemoveFirst(caches, sr) == caches[..i] + RemoveFirst(caches[i..], sr)
      {
        assert caches[i..][0] == caches[i] && caches[i..][1..] == caches[i + 1..];
        if caches[i].Overlaps(sr) {
          result := caches[..i] + caches[i + 1..];
          assert result == RemoveFirst(caches, sr);
          break;
        }
        ghost var behind := RemoveFirst(caches[i + 1..], sr);
        assert caches[..i] + ([caches[i]] + behind) == caches[..i + 1] + behind;
      }
      if result == caches {
        assert caches[|caches|..] == [];
      }
      FlashCache(result);
    }
  }

  /* ---------- the cache of equal-size blocks ---------- */

  lemma CanonicalizedBlocks(s: seq<SimpleRange>, n: nat)
    requires n < 32 && AllBlocks(s, Pow2(n))
    ensures Canonicalized(s) == s
  {
    forall i | 0 <= i < |s| ensures s[i].Canonicalize() == s[i] {
      BlockIsSegment(s[i], n);
    }
  }

  /** Appending refuses exactly the blocks that meet a cached one and otherwise extends the list. */
  lemma AppendExactly(cache: seq<SimpleRange>, sr: SimpleRange, n: nat)
    requires n < 32 && AllBlocks(cache, Pow2(n)) && IsBlock(sr, Pow2(n)) && PairwiseDisjoint(cache)
    ensures Appended(cache, sr).None? <==> exists i :: 0 <= i < |cache| && Intersects(cache[i], sr)
    ensures Appended(cache, sr).Some? ==> Appended(cache, sr).value == cache + [sr] && PairwiseDisjoint(cache + [sr])
  {
    forall i | 0 <= i < |cache| ensures cache[i].Overlaps(sr) <==> Intersects(cache[i], sr) {
      assert cache[i] in cache;
      BlockOverlapIsIntersection(cache[i], sr, Pow2(n));
    }
    if !AnyOverlaps(cache, sr) {
      CanonicalizedBlocks(cache + [sr], n);
    }
  }

  lemma {:induction false} RemoveFirstAt(cache: seq<SimpleRange>, sr: SimpleRange, k: nat)
    requires k < |cache| && cache[k].Overlaps(sr)
    requires forall i :: 0 <= i < k ==> !cache[i].Overlaps(sr)
    ensures RemoveFirst(cache, sr) == cache[..k] + cache[k + 1..]
  {
    if k > 0 {
      assert !cache[0].Overlaps(sr);
      RemoveFirstAt(cache[1..], sr, k - 1);
      assert cache[..k] + cache[k + 1..] == [cache[0]] + (cache[1..][..k - 1] + cache[1..][k..]);
    }
  }

  lemma {:induction false} RemoveFirstNone(cache: seq<SimpleRange>, sr: SimpleRange)
    requires !AnyOverlaps(cache, sr)
    ensures RemoveFirst(cache, sr) == cache
  {
    if cache != [] {
      assert !cache[0].Overlaps(sr);
      forall i | 0 <= i < |cache| - 1 ensures !cache[1..][i].Overlaps(sr) {
        assert cache[1..][i] == cache[i + 1];
      }
      RemoveFirstNone(cache[1..], sr);
    }
  }

  /** Deleting removes exactly the first intersecting entry and keeps the rest, in order and disjoint. */
  lemma DeleteExactly(cache: seq<SimpleRange>, sr: SimpleRange, n: nat)
    requires n < 32 && AllBlocks(cache, Pow2(n)) && IsBlock(sr, Pow2(n)) && PairwiseDisjoint(cache)
    ensures PairwiseDisjoint(Deleted(cache, sr)) && AllBlocks(Deleted(cache, sr), Pow2(n))
    ensures !AnyOverlaps(cache, sr) ==> Deleted(cache, sr) == cache
    ensures forall k :: && 0 <= k < |cache| && Intersects(cache[k], sr)
                        && (forall i :: 0 <= i < k ==> !Intersects(cache[i], sr))
                        ==> Deleted(cache, sr) == cache[..k] + cache[k + 1..]
  {
    hide Canonicalized, Pow2;
    forall i | 0 <= i < |cache| ensures cache[i].Overlaps(sr) <==> Intersects(cache[i], sr) {
      assert cache[i] in cache;
      BlockOverlapIsIntersection(cache[i], sr, Pow2(n));
    }
    if AnyOverlaps(cache, sr) {
      var k := FirstOverlap(cache, sr);
      RemoveFirstAt(cache, sr, k);
      assert Deleted(cache, sr) == cache[..k] + cache[k + 1..] by {
        CanonicalizedBlocks(cache[..k] + cache[k + 1..], n);
      }
    } else {
      RemoveFirstNone(cache, sr);
      CanonicalizedBlocks(cache, n);
    }
  }

  function FirstOverlap(cache: seq<SimpleRange>, sr: SimpleRange): (k: nat)
    requires AnyOverlaps(cache, sr)
    ensures k < |cache| && cache[k].Overlaps(sr)
    ensures forall i :: 0 <= i < k ==> !cache[i].Overlaps(sr)
  {
    if cache[0].Overlaps(sr) then 0
    else
      assert AnyOverlaps(cache[1..], sr) by {
        var i :| 0 <= i < |cache| && cache[i].Overlaps(sr);
        assert cache[1..][i - 1] == cache[i];
      }
      assert forall i :: 0 < i < |cache| ==> cache[i] == cache[1..][i - 1];
      1 + FirstOverlap(cache[1..], sr)
  }

  /** A cached block is deleted alone: the others stay as they were. */
  lemma DeleteMember(cache: seq<SimpleRange>, k: nat, n: nat)
    requires n < 32 && AllBlocks(cache, Pow2(n)) && PairwiseDisjoint(cache) && k < |cache|
    ensures Deleted(cache, cache[k]) == cache[..k] + cache[k + 1..]
  {
    var sr := cache[k];
    DeleteExactly(cache, sr, n);
  }

  /* ---------- releasing ---------- */

  /** Names as the runtime passes them: the container id is not blank, the interface ends in a visible character. */
  predicate ProperNames(id: string, ifname: string) {
    && Trim(id, SPACE) != ""
    && ifname != "" && ifname[|ifname| - 1] !in SPACE
  }

  lemma RecordTrimmed(id: string, ifname: string)
    requires ProperNames(id, ifname)
    ensures Trim(Record(id, ifname), SPACE) == Record(id, ifname)
  {
    TrimEnds(id, SPACE);
    var r := Record(id, ifname);
    assert r[0] == Trim(id, SPACE)[0];
    assert r[|r| - 1] == ifname[|ifname| - 1];
  }

  /** A release touches no container whose record does not start with the given id. */
  lemma ReleaseKeepsOthers(files: Files, id: string, ifname: string, b: uint32)
    requires b in files && !HasPrefix(files[b], Trim(id, SPACE))
    ensures b in AfterRelease(files, id, ifname) && AfterRelease(files, id, ifname)[b] == files[b]
  {
    assert Trim(id, SPACE) <= Record(id, ifname);
  }

  predicate AnyHasPrefix(files: Files, prefix: string) {
    exists a :: a in files && HasPrefix(files[a], prefix)
  }

  /** A release removes exactly the records that start with the id and the interface or, if there are none, with
      the id. It takes only records of the first kind if and only if it does not come to the second. */
  lemma ReleaseExactly(files: Files, id: string, ifname: string)
    ensures var f, key := AfterRelease(files, id, ifname), Record(id, ifname);
            var gone := if AnyHasPrefix(files, key) then key else Trim(id, SPACE);
            && (forall a :: a in f <==> a in files && !HasPrefix(files[a], gone))
            && (forall a :: a in f ==> f[a] == files[a])
            && ((forall a :: a in files && a !in f ==> HasPrefix(files[a], key)) <==>
                AnyHasPrefix(files, key) || !AnyHasPrefix(files, Trim(id, SPACE)))
  {
    hide HasPrefix, Record;
    var key := Record(id, ifname);
    if AnyHasPrefix(files, key) {
      var a :| a in files && HasPrefix(files[a], key);
      assert a !in Without(files, key);
    } else {
      assert Without(files, key) == files;
    }
  }

  /** One record starts with the key of another interface exactly if its interface name does. */
  lemma RecordPrefixExactly(id: string, ifname: string, other: string)
    requires ProperNames(id, other)
    ensures HasPrefix(Record(id, other), Record(id, ifname)) <==> ifname <= other
    ensures HasPrefix(Record(id, other), Trim(id, SPACE))
  {
    RecordTrimmed(id, other);
    var front := Trim(id, SPACE) + LINE_BREAK;
    assert Record(id, other) == front + other && Record(id, ifname) == front + ifname;
    if ifname <= other {
      assert other == ifname + other[|ifname|..];
      assert front + other == front + ifname + other[|ifname|..];
    }
    if front + ifname <= front + other {
      assert (front + other)[|front|..] == other;
      assert (front + other)[..|front + ifname|] == front + ifname;
      assert (front + other)[|front|..][..|ifname|] == (front + ifname)[|front|..] == ifname;
    }
  }

  /** Texts without a line break end at the first one. */
  lemma {:induction false} FirstLine(x: string, y: string, s: string, t: string)
    requires '\r' !in x && '\r' !in y
    ensures x + LINE_BREAK + s <= y + LINE_BREAK + t ==> x == y
  {
    if x != "" && y != "" && x[0] == y[0] {
      FirstLine(x[1..], y[1..], s, t);
      assert (x + LINE_BREAK + s)[1..] == x[1..] + LINE_BREAK + s;
      assert (y + LINE_BREAK + t)[1..] == y[1..] + LINE_BREAK + t;
    } else {
      assert (x + LINE_BREAK + s)[0] == if x == "" then '\r' else x[0];
      assert (y + LINE_BREAK + t)[0] == if y == "" then '\r' else y[0];
    }
  }

  /** The record that Reserve writes is taken for an interface exactly if it is of the same container and its interface
      name starts with the other; blanks around the record do not matter. */
  lemma OwnedByExactly(id: string, ifname: string, owner: string, other: string, front: string, back: string)
    requires ProperNames(owner, other) && '\r' !in Trim(owner, SPACE) && '\r' !in Trim(id, SPACE)
    requires AllIn(front, SPACE) && AllIn(back, SPACE)
    ensures var content := front + Record(owner, other) + back;
            && (OwnedBy(content, id, ifname) <==> Trim(id, SPACE) == Trim(owner, SPACE) && ifname <= other)
            && (HasPrefix(content, Record(id, ifname)) <==> Trim(id, SPACE) == Trim(owner, SPACE) && ifname <= other)
            && (HasPrefix(content, Trim(id, SPACE)) <==> Trim(id, SPACE) <= Record(owner, other))
  {
    RecordTrimmed(owner, other);
    TrimEnds(Record(owner, other), SPACE);
    TrimPadded(front, Record(owner, other), back, SPACE);
    FirstLine(Trim(id, SPACE), Trim(owner, SPACE), ifname, other);
    assert Record(owner, other)[|Trim(owner, SPACE)|] == '\r';
    if Trim(id, SPACE) == Trim(owner, SPACE) {
      RecordPrefixExactly(owner, ifname, other);
      assert Record(id, ifname) == Record(owner, ifname);
    }
  }

  /** A content of one line is taken for an interface exactly if it is the container id. */
  lemma BareIdIsOwned(content: string, id: string, ifname: string)
    requires '\r' !in Trim(content, SPACE)
    ensures OwnedBy(content, id, ifname) <==> Trim(content, SPACE) == Trim(id, SPACE)
  {
    assert Record(id, ifname)[|Trim(id, SPACE)|] == '\r';
  }

  /** The address of another interface of the container is released exactly if that name starts with this one
      or nothing is recorded under this one. */
  lemma ReleasesOtherExactly(files: Files, id: string, ifname: string, other: string, a: uint32)
    requires ProperNames(id, other) && a in files && files[a] == Record(id, other)
    ensures a !in AfterRelease(files, id, ifname) <==> ifname <= other || !AnyHasPrefix(files, Record(id, ifname))
  {
    ReleaseExactly(files, id, ifname);
    RecordPrefixExactly(id, ifname, other);
    hide HasPrefix, Record, AfterRelease;
  }

  /** Releasing under a name that the interface's name starts with takes back exactly the address that was just
      reserved, when no other record starts with the container's id and that name. */
  lemma ReleaseUndoesReserve(files: Files, id: string, ifname: string, rel: string, a: uint32)
    requires ProperNames(id, ifname) && rel <= ifname && a !in files
    requires !AnyHasPrefix(files, Record(id, rel))
    ensures AfterRelease(files[a := Record(id, ifname)], id, rel) == files
  {
    RecordPrefixExactly(id, rel, ifname);
    hide HasPrefix, Record;
    var f := files[a := Record(id, ifname)];
    assert a !in Without(f, Record(id, rel));
    assert Without(f, Record(id, rel)) == files;
  }

  /** A second release of the same interface takes what is left of the container. */
  lemma TwoReleasesTakeTheContainer(files: Files, id: string, ifname: string)
    ensures AfterRelease(AfterRelease(files, id, ifname), id, ifname) == Without(files, Trim(id, SPACE))
    ensures AfterRelease(Without(files, Trim(id, SPACE)), id, ifname) == Without(files, Trim(id, SPACE))
  {
    var key, all := Record(id, ifname), Trim(id, SPACE);
    assert all <= key;
    hide Record;
    assert Without(Without(files, key), key) == Without(files, key);
    assert Without(Without(files, key), all) == Without(files, all);
    assert Without(Without(files, all), key) == Without(files, all);
    assert Without(Without(files, all), all) == Without(files, all);
  }

  /** An interface whose name starts with that of the released one goes with it. */
  lemma LongerNameIsReleased(a: uint32)
    ensures AfterRelease(map[a := Record("c1", "net10")], "c1", "net1") == map[]
  {
    TrimProper("c1");
    ReleasesOtherExactly(map[a := Record("c1", "net10")], "c1", "net1", "net10", a);
    ReleaseExactly(map[a := Record("c1", "net10")], "c1", "net1");
  }

  /** The release of an interface that holds nothing takes the container's other interface. */
  lemma FallbackReleasesOtherInterface(a: uint32)
    ensures AfterRelease(map[a := Record("c1", "eth0")], "c1", "eth1") == map[]
  {
    TrimProper("c1");
    RecordPrefixExactly("c1", "eth1", "eth0");
    assert "eth1"[3] == '1' && "eth0"[3] == '0';
    ReleasesOtherExactly(map[a := Record("c1", "eth0")], "c1", "eth1", "eth0", a);
    ReleaseExactly(map[a := Record("c1", "eth0")], "c1", "eth1");
  }

  lemma TrimProper(s: string)
    requires s != "" && s[0] !in SPACE && s[|s| - 1] !in SPACE
    ensures Trim(s, SPACE) == s
  {
  }
}
