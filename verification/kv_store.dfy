/** The pure decisions of the vbucket store's start-up
    (ep_engine/src/kv_store.rs): which directory entries are database
    files, which of them belong to this shard and with which revisions,
    where a vbucket's revision and state are cached, how a stored revision
    is reconciled with the revisions found on disk, and how the persisted
    vbucket state is sanitised.

    The filesystem, the database handle, JSON decoding and the lock around
    the revision map are left out: directory listings, headers and decoded
    states come in as values, and the revision map is a plain sequence.
    Every panic of the source (`assert_eq!`, `unwrap`, a division by zero,
    an arithmetic overflow, an index out of range) is an `Err` here. */
module KvStore {
  import opened Results
  import DivMod
  import Text

  const U16_LIMIT: nat := 0x1_0000
  const U64_LIMIT: nat := 0x1_0000_0000_0000_0000
  const I64_LIMIT: nat := 0x8000_0000_0000_0000

  /** `u64::MAX`, which also bounds `usize` on a 64-bit target. */
  const U64_MAX: nat := U64_LIMIT - 1

  type U16 = x: nat | x < U16_LIMIT
  type U64 = x: nat | x < U64_LIMIT
  type I64 = x: int | -(I64_LIMIT as int) <= x < I64_LIMIT

  /** `CouchKVStoreConfig`. A vbucket id (`Vbid`, a `u16` wrapper whose
      module is not part of this model) is a `U16`. */
  datatype Config = Config(maxVbuckets: U16, dbName: string, maxShards: U16, shardId: U16)

  /** Every way the start-up aborts; each is a panic in the source. */
  datatype KvError =
    | DivisionByZero
    | ArithmeticOverflow
    | MalformedFileName(name: string, parts: nat)
    | InvalidVbid(text: string)
    | InvalidRevision(text: string)
    | SlotOutOfRange(slot: nat, size: nat)

  // ---------------------------------------------------------------------
  // Cache slots
  // ---------------------------------------------------------------------

  /** `get_cache_size`: the number of vbuckets per shard, rounded up. The
      source divides in `f64` and rounds up; for `u16` operands the
      quotient is never rounded onto an integer, so integer ceiling
      division agrees. With no shards the float quotient is infinite (or
      NaN for no vbuckets either), which the cast to `usize` saturates to
      the maximum (or to 0). */
  function CacheSize(cfg: Config): (size: nat)
    ensures cfg.maxShards > 0 ==> size * cfg.maxShards >= cfg.maxVbuckets
    ensures cfg.maxShards > 0 && size > 0 ==> (size - 1) * cfg.maxShards < cfg.maxVbuckets
    ensures cfg.maxShards == 0 ==> size == (if cfg.maxVbuckets == 0 then 0 else U64_MAX)
  {
    var mv: nat := cfg.maxVbuckets;
    var ms: nat := cfg.maxShards;
    if ms == 0 then (if mv == 0 then 0 else U64_MAX)
    else
      DivMod.CeilDiv(mv, ms);
      if mv % ms == 0 then mv / ms else mv / ms + 1
  }

  /** `get_cache_slot`: a vbucket's index into the per-shard caches. */
  function CacheSlot(cfg: Config, vbid: U16): (r: Result<nat, KvError>)
    ensures cfg.maxShards == 0 <==> r == Err(DivisionByZero)
    ensures r.Ok? ==> r.value * cfg.maxShards <= vbid < (r.value + 1) * cfg.maxShards
  {
    if cfg.maxShards == 0 then Err(DivisionByZero)
    else
      var ms: nat := cfg.maxShards;
      var q := vbid / ms;
      assert vbid == q * ms + vbid % ms;
      assert (q + 1) * ms == q * ms + ms;
      Ok(q)
  }

  /** Every vbucket below `max_vbuckets` has a slot inside the caches
      `get_cache_size` sizes. */
  lemma SlotWithinCache(cfg: Config, vbid: U16)
    requires cfg.maxShards > 0 && vbid < cfg.maxVbuckets
    ensures CacheSlot(cfg, vbid).Ok? && CacheSlot(cfg, vbid).value < CacheSize(cfg)
  {
    var slot := CacheSlot(cfg, vbid).value;
    var size := CacheSize(cfg);
    if slot >= size {
      MulMonotone(size, slot, cfg.maxShards);
    }
  }

  lemma MulMonotone(a: nat, b: nat, m: nat)
    requires a <= b
    ensures a * m <= b * m
  {
  }

  // ---------------------------------------------------------------------
  // Shard ownership
  // ---------------------------------------------------------------------

  /** The shard test of `get_vbucket_revision`: a vbucket belongs to this shard when its residue is
      the shard id, or when it is the vbucket just past the last whole
      round of shards plus the shard id. The `u16` arithmetic panics on a
      zero shard count and on an overflowing sum. */
  function Owns(cfg: Config, vbid: U16): (r: Result<bool, KvError>)
    ensures cfg.maxShards == 0 <==> r == Err(DivisionByZero)
    ensures r == Ok(true) <==>
              cfg.maxShards > 0 &&
              (vbid % cfg.maxShards == cfg.shardId ||
               vbid == (cfg.maxVbuckets / cfg.maxShards) * cfg.maxShards + cfg.shardId)
    ensures r == Err(ArithmeticOverflow) <==>
              cfg.maxShards > 0 && vbid % cfg.maxShards != cfg.shardId &&
              (cfg.maxVbuckets / cfg.maxShards) * cfg.maxShards + cfg.shardId >= U16_LIMIT
    ensures r.Ok? || r == Err(DivisionByZero) || r == Err(ArithmeticOverflow)
  {
    if cfg.maxShards == 0 then Err(DivisionByZero)
    else if vbid % cfg.maxShards == cfg.shardId then Ok(true)
    else
      var tail := (cfg.maxVbuckets / cfg.maxShards) * cfg.maxShards + cfg.shardId;
      if tail >= U16_LIMIT then Err(ArithmeticOverflow)
      else Ok(vbid == tail)
  }

  /** With a shard id below the shard count, the second test adds nothing:
      the vbucket it admits already has the shard id as its residue. So a
      vbucket belongs to exactly one shard, the one its residue names. */
  lemma OwnershipIsResidue(cfg: Config, vbid: U16)
    requires cfg.maxShards > 0 && cfg.shardId < cfg.maxShards
    requires Owns(cfg, vbid).Ok?
    ensures Owns(cfg, vbid) == Ok(vbid % cfg.maxShards == cfg.shardId)
  {
    var ms: nat := cfg.maxShards;
    var q := cfg.maxVbuckets / ms;
    if vbid == q * ms + cfg.shardId {
      DivMod.DivModUnique(vbid, ms, q, cfg.shardId);
    }
  }

  // ---------------------------------------------------------------------
  // Database file names
  // ---------------------------------------------------------------------

  /** The base name `get_db_file_name` writes for a vbucket's revision;
      the vbucket id is written in decimal. It splits on `.` into the
      vbucket's digits, `couch` and the revision's digits. */
  function DbFileBase(vbid: U16, rev: U64): (base: string)
    ensures Text.Split(base, '.') == [Text.NatToDecimal(vbid), "couch", Text.NatToDecimal(rev)]
  {
    var v := Text.NatToDecimal(vbid);
    var r := Text.NatToDecimal(rev);
    Text.DecimalHasNoDot(vbid);
    Text.DecimalHasNoDot(rev);
    assert '.' !in "couch" by {
      assert "couch"[0] != '.' && "couch"[1] != '.' && "couch"[2] != '.' && "couch"[3] != '.' && "couch"[4] != '.';
    }
    SplitThree(v, "couch", r);
    assert v + ".couch." + r == v + "." + "couch" + "." + r;
    v + ".couch." + r
  }

  /** Three pieces free of `.`, glued with `.`, split back into themselves. */
  lemma SplitThree(a: string, b: string, c: string)
    requires '.' !in a && '.' !in b && '.' !in c
    ensures Text.Split(a + "." + b + "." + c, '.') == [a, b, c]
  {
    var parts := [a, b, c];
    assert forall i | 0 <= i < |parts| :: '.' !in parts[i];
    assert Text.Join(parts, '.') == a + "." + b + "." + c by {
      assert Text.Join(parts[2..], '.') == c;
      assert Text.Join(parts[1..], '.') == b + ['.'] + c;
    }
    Text.SplitJoin(parts, '.');
  }

  /** `get_db_file_name`: the base name inside the database directory. */
  function DbFileName(dbName: string, vbid: U16, rev: U64): (path: string)
    ensures Text.StartsWith(path, dbName + "/")
    ensures Text.EndsWith(path, DbFileBase(vbid, rev))
    ensures |path| == |dbName| + 1 + |DbFileBase(vbid, rev)|
  {
    var path := dbName + "/" + DbFileBase(vbid, rev);
    assert path[..|dbName| + 1] == dbName + "/";
    assert path[|path| - |DbFileBase(vbid, rev)|..] == DbFileBase(vbid, rev);
    path
  }

  /** The name filter of `discover_db_files`: the name holds `.couch.`
      somewhere and does not end with `.compact`. */
  function KeepDbFile(name: string): (keep: bool)
    ensures keep <==>
              (exists i: nat :: Text.OccursAt(name, ".couch.", i)) &&
              !(|name| >= 8 && name[|name| - 8..] == ".compact")
  {
    Text.Contains(name, ".couch.") && !Text.EndsWith(name, ".compact")
  }

  /** A `master` file of any revision is skipped without parsing. */
  lemma MasterFilesSkipped(cfg: Config, rev: U64)
    ensures ParseEntry(cfg, "master.couch." + Text.NatToDecimal(rev)) == Ok(None)
  {
    var r := Text.NatToDecimal(rev);
    Text.DecimalHasNoDot(rev);
    assert '.' !in "master" by {
      assert forall i | 0 <= i < 6 :: "master"[i] != '.';
    }
    assert '.' !in "couch" by {
      assert forall i | 0 <= i < 5 :: "couch"[i] != '.';
    }
    SplitThree("master", "couch", r);
    assert "master.couch." + r == "master" + "." + "couch" + "." + r;
  }

  /** `discover_db_files` over a directory listing: the names the filter
      keeps, in listing order. */
  function DiscoverDbFiles(listing: seq<string>): (names: seq<string>)
    ensures forall x :: x in names <==> x in listing && KeepDbFile(x)
    ensures |names| <= |listing|
  {
    if |listing| == 0 then []
    else
      var rest := DiscoverDbFiles(listing[1..]);
      assert forall x :: x in listing <==> x == listing[0] || x in listing[1..];
      if KeepDbFile(listing[0]) then [listing[0]] + rest else rest
  }

  /** A file written for a vbucket's revision is discovered; its
      compaction file is not. */
  lemma DbFileDiscovered(vbid: U16, rev: U64)
    ensures KeepDbFile(DbFileBase(vbid, rev))
    ensures !KeepDbFile(DbFileBase(vbid, rev) + ".compact")
  {
    var v := Text.NatToDecimal(vbid);
    var r := Text.NatToDecimal(rev);
    var name := DbFileBase(vbid, rev);
    assert name[|v|..|v| + 7] == ".couch.";
    assert Text.OccursAt(name, ".couch.", |v|);
    assert name[|name| - 1] == r[|r| - 1];
    assert Text.IsDigit(r[|r| - 1]);
    var compact := name + ".compact";
    assert compact[|compact| - 8..] == ".compact";
  }

  // ---------------------------------------------------------------------
  // Parsing the discovered names
  // ---------------------------------------------------------------------

  /** A revision of a vbucket found on disk. */
  datatype Entry = Entry(vbid: U16, rev: U64)

  /** `get_vbucket_revision` for one name: it must split on `.` into exactly three
      parts; `master` files are skipped; otherwise the first part is the
      vbucket id, the third the revision, and the entry is kept only when
      this shard owns the vbucket. */
  function ParseEntry(cfg: Config, name: string): (r: Result<Option<Entry>, KvError>)
    ensures |Text.Split(name, '.')| != 3 ==> r == Err(MalformedFileName(name, |Text.Split(name, '.')|))
    ensures r.Ok? && r.value.Some? ==> Owns(cfg, r.value.value.vbid) == Ok(true)
  {
    var parts := Text.Split(name, '.');
    if |parts| != 3 then Err(MalformedFileName(name, |parts|))
    else if parts[0] == "master" then Ok(None)
    else
      match Text.ParseUnsigned(parts[0], U16_LIMIT)
      case None => Err(InvalidVbid(parts[0]))
      case Some(vbid) =>
        match Text.ParseUnsigned(parts[2], U64_LIMIT)
        case None => Err(InvalidRevision(parts[2]))
        case Some(rev) =>
          var owned :- Owns(cfg, vbid);
          if owned then Ok(Some(Entry(vbid, rev))) else Ok(None)
  }

  /** Every outcome of parsing one name: a name without exactly three
      parts is malformed; a `master` name is skipped; otherwise the vbucket
      must parse, then the revision, and a parsed pair is kept exactly when
      this shard owns the vbucket, an ownership failure propagating. */
  lemma ParseEntryCases(cfg: Config, name: string)
    ensures var parts := Text.Split(name, '.');
            |parts| == 3 && parts[0] == "master" ==> ParseEntry(cfg, name) == Ok(None)
    ensures var parts := Text.Split(name, '.');
            |parts| == 3 && parts[0] != "master" ==>
              var r := ParseEntry(cfg, name);
              var vbid := Text.ParseUnsigned(parts[0], U16_LIMIT);
              var rev := Text.ParseUnsigned(parts[2], U64_LIMIT);
              && (vbid.None? ==> r == Err(InvalidVbid(parts[0])))
              && (vbid.Some? && rev.None? ==> r == Err(InvalidRevision(parts[2])))
              && (vbid.Some? && rev.Some? && Owns(cfg, vbid.value).Err? ==> r == Err(Owns(cfg, vbid.value).error))
              && (vbid.Some? && rev.Some? && Owns(cfg, vbid.value).Ok? ==>
                    r == Ok(if Owns(cfg, vbid.value).value then Some(Entry(vbid.value, rev.value)) else None))
  {
  }

  /** A name written by `get_db_file_name` parses back to its vbucket and
      revision, and is kept exactly when this shard owns the vbucket. */
  lemma ParseDbFileBase(cfg: Config, vbid: U16, rev: U64)
    requires Owns(cfg, vbid).Ok?
    ensures ParseEntry(cfg, DbFileBase(vbid, rev)) ==
              if Owns(cfg, vbid).value then Ok(Some(Entry(vbid, rev))) else Ok(None)
  {
    Text.ParseFormatted(vbid, U16_LIMIT);
    Text.ParseFormatted(rev, U64_LIMIT);
    var v := Text.NatToDecimal(vbid);
    assert v != "master" by {
      assert Text.IsDigit(v[0]);
    }
  }

  /** Every name parses. */
  predicate AllParse(cfg: Config, names: seq<string>)
  {
    forall i | 0 <= i < |names| :: ParseEntry(cfg, names[i]).Ok?
  }

  /** What each name parses to. */
  function ParsedNames(cfg: Config, names: seq<string>): (opts: seq<Option<Entry>>)
    requires AllParse(cfg, names)
    ensures |opts| == |names|
    ensures forall i | 0 <= i < |names| :: ParseEntry(cfg, names[i]) == Ok(opts[i])
  {
    seq(|names|, i requires 0 <= i < |names| && AllParse(cfg, names) => ParseEntry(cfg, names[i]).value)
  }

  /** The entries kept among parsed names, in order. */
  function Kept(opts: seq<Option<Entry>>): seq<Entry>
    decreases |opts|
  {
    if |opts| == 0 then []
    else
      var last := opts[|opts| - 1];
      Kept(opts[..|opts| - 1]) + (if last.Some? then [last.value] else [])
  }

  /** An entry is kept exactly when some name parsed to it. */
  lemma {:induction false} KeptSpec(opts: seq<Option<Entry>>, e: Entry)
    ensures e in Kept(opts) <==> exists i | 0 <= i < |opts| :: opts[i] == Some(e)
    decreases |opts|
  {
    if |opts| > 0 {
      var init := opts[..|opts| - 1];
      KeptSpec(init, e);
      if exists i | 0 <= i < |opts| :: opts[i] == Some(e) {
        var i :| 0 <= i < |opts| && opts[i] == Some(e);
        if i < |init| {
          assert init[i] == Some(e);
        }
      }
      if exists i | 0 <= i < |init| :: init[i] == Some(e) {
        var i :| 0 <= i < |init| && init[i] == Some(e);
        assert opts[i] == Some(e);
      }
    }
  }

  /** `m` records exactly the vbucket/revision pairs of `entries`, and no
      vbucket has an empty set. */
  ghost predicate Collects(m: map<U16, set<U64>>, entries: seq<Entry>)
  {
    && (forall v | v in m :: m[v] != {})
    && (forall v: U16, rev: U64 :: (v in m && rev in m[v]) <==> Entry(v, rev) in entries)
  }

  /** `get_vbucket_revision`: the revisions found on disk for each vbucket
      this shard owns, a set per vbucket so that duplicates collapse. The
      first name that does not parse aborts. */
  method GetVbucketRevision(cfg: Config, names: seq<string>) returns (r: Result<map<U16, set<U64>>, KvError>)
    ensures r.Ok? <==> AllParse(cfg, names)
    ensures r.Err? ==> exists i | 0 <= i < |names| ::
              && ParseEntry(cfg, names[i]).Err? && r.error == ParseEntry(cfg, names[i]).error
              && AllParse(cfg, names[..i])
    ensures r.Ok? ==> Collects(r.value, Kept(ParsedNames(cfg, names)))
  {
    var m: map<U16, set<U64>> := map[];
    var n: nat := 0;
    ghost var opts: seq<Option<Entry>> := [];
    while n < |names|
      invariant n <= |names| && |opts| == n
      invariant forall j | 0 <= j < n :: ParseEntry(cfg, names[j]) == Ok(opts[j])
      invariant Collects(m, Kept(opts))
      decreases |names| - n
    {
      var e := ParseEntry(cfg, names[n]);
      if e.Err? {
        assert AllParse(cfg, names[..n]) by {
          assert forall j | 0 <= j < n :: names[..n][j] == names[j];
        }
        return Err(e.error);
      }
      m := Record(m, e.value, Kept(opts));
      KeptSnoc(opts, e.value);
      opts := opts + [e.value];
      n := n + 1;
    }
    assert opts == ParsedNames(cfg, names);
    return Ok(m);
  }

  /** Records what one name parsed to: a kept entry's revision joins its
      vbucket's set, created empty when the vbucket is new. */
  method Record(m: map<U16, set<U64>>, parsed: Option<Entry>, ghost entries: seq<Entry>)
    returns (m': map<U16, set<U64>>)
    requires Collects(m, entries)
    ensures Collects(m', entries + (if parsed.Some? then [parsed.value] else []))
  {
    m' := m;
    if parsed.Some? {
      var e := parsed.value;
      var revs := if e.vbid in m then m[e.vbid] else {};
      CollectStep(m, entries, e);
      m' := m[e.vbid := revs + {e.rev}];
    } else {
      assert entries + [] == entries;
    }
  }

  /** One more parsed name extends the kept entries by its entry, if any. */
  lemma KeptSnoc(opts: seq<Option<Entry>>, x: Option<Entry>)
    ensures Kept(opts + [x]) == Kept(opts) + (if x.Some? then [x.value] else [])
  {
    assert (opts + [x])[..|opts|] == opts;
  }

  /** Recording one more entry extends what has been collected. */
  lemma CollectStep(m: map<U16, set<U64>>, entries: seq<Entry>, e: Entry)
    requires Collects(m, entries)
    ensures Collects(m[e.vbid := (if e.vbid in m then m[e.vbid] else {}) + {e.rev}], entries + [e])
  {
  }

  /** The result of `get_vbucket_revision`, read back name by name: a
      vbucket holds a revision exactly when some name parses to that pair. */
  lemma VbucketRevisionMembership(cfg: Config, names: seq<string>, m: map<U16, set<U64>>, v: U16, rev: U64)
    requires AllParse(cfg, names) && Collects(m, Kept(ParsedNames(cfg, names)))
    ensures (v in m && rev in m[v]) <==>
              exists i | 0 <= i < |names| :: ParseEntry(cfg, names[i]) == Ok(Some(Entry(v, rev)))
  {
    var opts := ParsedNames(cfg, names);
    KeptSpec(opts, Entry(v, rev));
    if exists i | 0 <= i < |opts| :: opts[i] == Some(Entry(v, rev)) {
      var i :| 0 <= i < |opts| && opts[i] == Some(Entry(v, rev));
      assert ParseEntry(cfg, names[i]) == Ok(Some(Entry(v, rev)));
    }
    if exists i | 0 <= i < |names| :: ParseEntry(cfg, names[i]) == Ok(Some(Entry(v, rev))) {
      var i :| 0 <= i < |names| && ParseEntry(cfg, names[i]) == Ok(Some(Entry(v, rev)));
      assert opts[i] == Some(Entry(v, rev));
    }
  }

  // ---------------------------------------------------------------------
  // Reconciling revisions
  // ---------------------------------------------------------------------

  function Max(a: nat, b: nat): nat
  {
    if a >= b then a else b
  }

  /** The outcome of comparing the stored revision with one found on disk:
      the revision to store, and the revision whose file is stale. */
  datatype Outcome = Outcome(stored: U64, stale: Option<U64>)

  /** One step of the reconcile loop of
      `populate_rev_map_and_remove_stale_files`: an equal revision changes
      nothing; a newer one replaces the stored revision, whose file is stale; an older one is itself
      stale (the revision counter rolled over). */
  function Reconcile(stored: U64, found: U64): (o: Outcome)
    ensures o.stored == Max(stored, found)
    ensures o.stale.None? <==> stored == found
    ensures o.stale.Some? ==> o.stale.value < o.stored && {o.stale.value, o.stored} == {stored, found}
  {
    if stored == found then Outcome(stored, None)
    else if stored < found then Outcome(found, Some(stored))
    else Outcome(stored, Some(found))
  }

  /** The revisions found for one vbucket reconciled in turn against the
      stored one, which each step re-reads: the final stored revision and
      the stale revisions, in order. */
  function ReconcileAll(stored: U64, found: seq<U64>): (r: (U64, seq<U64>))
    ensures r.0 >= stored && |r.1| <= |found|
    decreases |found|
  {
    if |found| == 0 then (stored, [])
    else
      var o := Reconcile(stored, found[0]);
      var rest := ReconcileAll(o.stored, found[1..]);
      (rest.0, (if o.stale.Some? then [o.stale.value] else []) + rest.1)
  }

  /** The largest of `stored` and the revisions in `found`. */
  function Newest(stored: U64, found: seq<U64>): U64
    decreases |found|
  {
    if |found| == 0 then stored else Newest(Max(stored, found[0]), found[1..])
  }

  /** However the revisions are enumerated, the stored revision ends as the
      newest of all, and every other revision seen is reported stale. */
  lemma {:induction false} ReconcileAllSpec(stored: U64, found: seq<U64>)
    ensures ReconcileAll(stored, found).0 == Newest(stored, found)
    ensures (set x | x in ReconcileAll(stored, found).1) ==
              ({stored} + (set x | x in found)) - {Newest(stored, found)}
    decreases |found|
  {
    if |found| > 0 {
      var o := Reconcile(stored, found[0]);
      ReconcileAllSpec(o.stored, found[1..]);
      NewestAtLeast(o.stored, found[1..]);
      var top := Newest(stored, found);
      var rest := ReconcileAll(o.stored, found[1..]);
      var head: seq<U64> := if o.stale.Some? then [o.stale.value] else [];
      assert top == Newest(o.stored, found[1..]);
      var headSet := if o.stale.Some? then {o.stale.value} else {};
      assert (set x | x in head) == headSet;
      assert {o.stored} + headSet == {stored, found[0]};
      assert top !in headSet;
      assert (set x | x in head + rest.1) == (set x | x in head) + (set x | x in rest.1);
      assert (set x | x in found) == {found[0]} + (set x | x in found[1..]) by {
        assert forall x :: x in found <==> x == found[0] || x in found[1..];
      }
    }
  }

  /** Every revision reported stale is older than the one finally stored,
      so a stale file never names the revision the map keeps. */
  lemma StaleAreOlder(stored: U64, found: seq<U64>)
    ensures forall x | x in ReconcileAll(stored, found).1 :: x < ReconcileAll(stored, found).0
  {
    ReconcileAllSpec(stored, found);
    NewestAtLeast(stored, found);
    var top := Newest(stored, found);
    var stale := ReconcileAll(stored, found).1;
    forall x | x in stale
      ensures x < top
    {
      assert x in ({stored} + (set y | y in found)) - {top};
      if x != stored {
        assert x in (set y | y in found);
      }
    }
  }

  /** The newest revision is at least the stored one and every one found. */
  lemma {:induction false} NewestAtLeast(stored: U64, found: seq<U64>)
    ensures Newest(stored, found) >= stored
    ensures forall x | x in found :: Newest(stored, found) >= x
    decreases |found|
  {
    if |found| > 0 {
      NewestAtLeast(Max(stored, found[0]), found[1..]);
      assert forall x :: x in found <==> x == found[0] || x in found[1..];
    }
  }

  /** `populate_rev_map_and_remove_stale_files` for one vbucket: the revisions found are reconciled
      against the revision map's entry for the vbucket's slot; the map
      keeps the newest, and each stale revision names a file to remove. */
  function ReconcileVbucket(cfg: Config, revMap: seq<U64>, vbid: U16, found: seq<U64>)
    : (r: Result<(seq<U64>, seq<string>), KvError>)
    ensures r.Ok? <==> |found| == 0 || (cfg.maxShards > 0 && CacheSlot(cfg, vbid).value < |revMap|)
    ensures |found| == 0 ==> r == Ok((revMap, []))
    ensures r.Ok? ==> |r.value.0| == |revMap|
    ensures |found| > 0 && cfg.maxShards == 0 ==> r == Err(DivisionByZero)
    ensures |found| > 0 && cfg.maxShards > 0 && CacheSlot(cfg, vbid).value >= |revMap| ==>
              r == Err(SlotOutOfRange(CacheSlot(cfg, vbid).value, |revMap|))
    ensures r.Ok? && |found| > 0 ==>
              var slot := CacheSlot(cfg, vbid).value;
              && slot < |revMap|
              && r.value.0 == revMap[slot := Newest(revMap[slot], found)]
              && |r.value.1| == |ReconcileAll(revMap[slot], found).1|
              && forall k | 0 <= k < |r.value.1| ::
                   r.value.1[k] == DbFileName(cfg.dbName, vbid, ReconcileAll(revMap[slot], found).1[k])
  {
    if |found| == 0 then Ok((revMap, []))
    else
      var slot :- CacheSlot(cfg, vbid);
      if slot >= |revMap| then Err(SlotOutOfRange(slot, |revMap|))
      else
        var outcome := ReconcileAll(revMap[slot], found);
        ReconcileAllSpec(revMap[slot], found);
        var names := seq(|outcome.1|, k requires 0 <= k < |outcome.1| => DbFileName(cfg.dbName, vbid, outcome.1[k]));
        Ok((revMap[slot := outcome.0], names))
  }

  // ---------------------------------------------------------------------
  // The persisted vbucket state
  // ---------------------------------------------------------------------

  /** The database header fields `read_vb_state` uses. */
  datatype Header = Header(updateSeq: U64, purgeSeq: U64)

  /** The `VBucketState` fields `read_vb_state` touches; the type lives in
      the `vbucket` module, which is not part of this model. */
  datatype VbState = VbState(highSeqno: I64, purgeSeqno: U64, maxCas: U64)

  /** `x as i64` for a `u64`: the same 64 bits read as two's complement. */
  function AsI64(x: U64): (y: I64)
    ensures x < I64_LIMIT ==> y == x
    ensures x >= I64_LIMIT ==> y == x - U64_LIMIT
    ensures (y - x) % U64_LIMIT == 0
  {
    if x < I64_LIMIT then x else x - U64_LIMIT
  }

  /** `y as u64` for an `i64`, the inverse reinterpretation. */
  function AsU64(y: I64): (x: U64)
    ensures y >= 0 ==> x == y
    ensures y < 0 ==> x == y + U64_LIMIT
    ensures (x - y) % U64_LIMIT == 0
  {
    if y >= 0 then y else y + U64_LIMIT
  }

  /** Reinterpreting the bits of a sequence number either way loses
      nothing. */
  lemma ReinterpretRoundTrip(x: U64, y: I64)
    ensures AsU64(AsI64(x)) == x
    ensures AsI64(AsU64(y)) == y
  {
  }

  /** MB-17517: a `max_cas` of `u64::MAX` on disk is invalid and is reset
      to 0; any other value is kept. */
  function SanitizeMaxCas(maxCas: U64): (c: U64)
    ensures c != U64_MAX
    ensures maxCas != U64_MAX ==> c == maxCas
    ensures maxCas == U64_MAX ==> c == 0
  {
    if maxCas == U64_MAX then 0 else maxCas
  }

  /** `read_vb_state`: the decoded state, with the high sequence number
      taken from the header's update sequence (reinterpreted as signed),
      the purge sequence number from the header, and `max_cas` sanitised. */
  function ReadVbState(header: Header, decoded: VbState): (s: VbState)
    ensures AsU64(s.highSeqno) == header.updateSeq
    ensures s.purgeSeqno == header.purgeSeq
    ensures s.maxCas == SanitizeMaxCas(decoded.maxCas)
  {
    VbState(AsI64(header.updateSeq), header.purgeSeq, SanitizeMaxCas(decoded.maxCas))
  }
}
