/** Concrete runs of the model on small trees. */
module Scenarios {
  import opened Common
  import opened SizeIndex
  import opened Scanner
  import opened Grouper
  import opened Reporter

  /** `/data` with `a.bin` and `b.bin` (2048 bytes, the same content),
      `c.bin` (2048 bytes, other content) and `d.bin` (500 bytes). */
  function DataListing(): Listing
  {
    Listed([File("a.bin", Some(2048)), File("b.bin", Some(2048)),
            File("c.bin", Some(2048)), File("d.bin", Some(500))])
  }

  function DataRecords(): seq<FileRecord>
  {
    [FileRecord("/data/a.bin", 2048), FileRecord("/data/b.bin", 2048), FileRecord("/data/c.bin", 2048)]
  }

  /** With `-min-size 1024` the walk of `/data` succeeds and keeps the three
      large files, in one bucket; `d.bin` is dropped. */
  lemma DataWalk(abs: Resolver)
    requires abs("/data", "a.bin") == Some("/data/a.bin") && abs("/data", "b.bin") == Some("/data/b.bin")
    requires abs("/data", "c.bin") == Some("/data/c.bin") && abs("/data", "d.bin").Some?
    ensures Walk("/data", DataListing(), Config(false, 1024), abs).ok
    ensures InsertAll(map[], Walk("/data", DataListing(), Config(false, 1024), abs).records)
            == map[2048 := ["/data/a.bin", "/data/b.bin", "/data/c.bin"]]
  {
    DataWalkRecords(abs);
    DataIndex();
  }

  lemma DataWalkRecords(abs: Resolver)
    requires abs("/data", "a.bin") == Some("/data/a.bin") && abs("/data", "b.bin") == Some("/data/b.bin")
    requires abs("/data", "c.bin") == Some("/data/c.bin") && abs("/data", "d.bin").Some?
    ensures Walk("/data", DataListing(), Config(false, 1024), abs) == Walked(DataRecords(), true)
  {
    var cfg := Config(false, 1024);
    var es := DataListing().entries;
    assert es[1..][1..][1..][1..] == [];
    assert WalkEntries("/data", es[1..][1..][1..], cfg, abs) == Walked([], true);
    assert WalkEntries("/data", es[1..][1..], cfg, abs) == Walked([FileRecord("/data/c.bin", 2048)], true);
    assert WalkEntries("/data", es[1..], cfg, abs)
        == Walked([FileRecord("/data/b.bin", 2048), FileRecord("/data/c.bin", 2048)], true);
  }

  lemma DataIndex()
    ensures InsertAll(map[], DataRecords()) == map[2048 := ["/data/a.bin", "/data/b.bin", "/data/c.bin"]]
  {
    var rs := DataRecords();
    assert rs[1..][1..][1..] == [];
    assert Inserted(map[], 2048, "/data/a.bin") == map[2048 := ["/data/a.bin"]] by {
      assert Lookup(map[], 2048) + ["/data/a.bin"] == ["/data/a.bin"];
    }
    assert Inserted(map[2048 := ["/data/a.bin"]], 2048, "/data/b.bin")
        == map[2048 := ["/data/a.bin", "/data/b.bin"]] by {
      assert ["/data/a.bin"] + ["/data/b.bin"] == ["/data/a.bin", "/data/b.bin"];
    }
    assert Inserted(map[2048 := ["/data/a.bin", "/data/b.bin"]], 2048, "/data/c.bin")
        == map[2048 := ["/data/a.bin", "/data/b.bin", "/data/c.bin"]] by {
      assert ["/data/a.bin", "/data/b.bin"] + ["/data/c.bin"] == ["/data/a.bin", "/data/b.bin", "/data/c.bin"];
    }
    assert InsertAll(map[], rs) == InsertAll(map[2048 := ["/data/a.bin"]], rs[1..]);
    assert InsertAll(map[2048 := ["/data/a.bin"]], rs[1..])
        == InsertAll(map[2048 := ["/data/a.bin", "/data/b.bin"]], rs[1..][1..]);
  }

  /** Only `a.bin` and `b.bin` share a digest: the pass completes with one
      entry of two paths and one of a single path. */
  lemma DataGroup(hash: Hasher)
    requires hash("/data/a.bin") == Some("X") && hash("/data/b.bin") == Some("X")
    requires hash("/data/c.bin") == Some("Y")
    ensures GroupFrom(map[], map[2048 := ["/data/a.bin", "/data/b.bin", "/data/c.bin"]], [2048], hash)
            == Grouping(map["X" := ["/data/a.bin", "/data/b.bin"], "Y" := ["/data/c.bin"]], true)
  {
    var paths := ["/data/a.bin", "/data/b.bin", "/data/c.bin"];
    var index := map[2048 := paths];
    assert Lookup(index, 2048) == paths;
    assert paths[1..][1..][1..] == [];
    var r1 := map["X" := ["/data/a.bin"]];
    var r2 := map["X" := ["/data/a.bin", "/data/b.bin"]];
    var r3 := map["X" := ["/data/a.bin", "/data/b.bin"], "Y" := ["/data/c.bin"]];
    assert paths[0] == "/data/a.bin" && paths[1..][0] == "/data/b.bin" && paths[1..][1..][0] == "/data/c.bin";
    assert map[]["X" := Lookup(map[], "X") + ["/data/a.bin"]] == r1 by {
      assert Lookup(map[], "X") + ["/data/a.bin"] == ["/data/a.bin"];
    }
    assert r1["X" := Lookup(r1, "X") + ["/data/b.bin"]] == r2 by {
      assert ["/data/a.bin"] + ["/data/b.bin"] == ["/data/a.bin", "/data/b.bin"];
    }
    assert r2["Y" := Lookup(r2, "Y") + ["/data/c.bin"]] == r3 by {
      assert Lookup(r2, "Y") + ["/data/c.bin"] == ["/data/c.bin"];
    }
    assert HashInto(map[], paths, hash) == HashInto(r1, paths[1..], hash);
    assert HashInto(r1, paths[1..], hash) == HashInto(r2, paths[1..][1..], hash);
    assert HashInto(r2, paths[1..][1..], hash) == HashInto(r3, [], hash);
    assert GroupFrom(map[], index, [2048], hash) == GroupFrom(r3, index, [], hash);
  }

  /** The report for that map: one group of two files, whatever order
      `range` visits the digests in. */
  lemma DataReport(order: seq<Digest>)
    requires Enumerates(order, {"X", "Y"})
    ensures var res := map["X" := ["/data/a.bin", "/data/b.bin"], "Y" := ["/data/c.bin"]];
            |Shown(res, order)| == 1 && PathCount(res, Shown(res, order)) == 2
  {
    var res := map["X" := ["/data/a.bin", "/data/b.bin"], "Y" := ["/data/c.bin"]];
    assert res.Keys == {"X", "Y"};
    assert Enumerates(["X", "Y"], {"X", "Y"});
    CountOrderIndependent(res, order, ["X", "Y"]);
    assert ["X", "Y"][..1] == ["X"];
    assert Shown(res, ["X"]) == ["X"] by {
      assert ["X"][..0] == [];
    }
    assert PathCount(res, ["X"]) == 2 by {
      assert ["X"][..0] == [];
    }
  }

  /** A hashing failure on one of three files of the same size: as written,
      the pass stops and reports nothing, though the other two files share a
      digest; with the failure isolated they form a group. */
  lemma HashFailureScenario(hash: Hasher)
    requires hash("/data/a.bin") == None
    requires hash("/data/b.bin") == Some("X") && hash("/data/c.bin") == Some("X")
    ensures var index := map[2048 := ["/data/a.bin", "/data/b.bin", "/data/c.bin"]];
            && GroupFrom(map[], index, [2048], hash) == Grouping(map[], false)
            && GroupSkipping(map[], index, [2048], hash) == map["X" := ["/data/b.bin", "/data/c.bin"]]
  {
    var paths := ["/data/a.bin", "/data/b.bin", "/data/c.bin"];
    var index := map[2048 := paths];
    assert Lookup(index, 2048) == paths;
    assert paths[1..][1..][1..] == [];
    var r1 := map["X" := ["/data/b.bin"]];
    var r2 := map["X" := ["/data/b.bin", "/data/c.bin"]];
    assert paths[0] == "/data/a.bin" && paths[1..][0] == "/data/b.bin" && paths[1..][1..][0] == "/data/c.bin";
    assert map[]["X" := Lookup(map[], "X") + ["/data/b.bin"]] == r1 by {
      assert Lookup(map[], "X") + ["/data/b.bin"] == ["/data/b.bin"];
    }
    assert r1["X" := Lookup(r1, "X") + ["/data/c.bin"]] == r2 by {
      assert ["/data/b.bin"] + ["/data/c.bin"] == ["/data/b.bin", "/data/c.bin"];
    }
    assert HashSkipping(map[], paths, hash) == HashSkipping(map[], paths[1..], hash);
    assert HashSkipping(map[], paths[1..], hash) == HashSkipping(r1, paths[1..][1..], hash);
    assert HashSkipping(r1, paths[1..][1..], hash) == HashSkipping(r2, [], hash);
    assert GroupSkipping(map[], index, [2048], hash) == GroupSkipping(r2, index, [], hash);
  }

  /** An unreadable subdirectory listed before a large file: with
      `-recursive` its walk fails, but the failure is dropped and the file
      after it is still inserted; the walk of `/d` succeeds. */
  lemma SubtreeFailureScenario(abs: Resolver)
    requires abs("/d", "sub") == Some("/d/sub") && abs("/d", "big") == Some("/d/big")
    ensures Walk("/d", Listed([Dir("sub", Unreadable), File("big", Some(2048))]), Config(true, 1024), abs)
            == Walked([FileRecord("/d/big", 2048)], true)
  {
    var es := [Dir("sub", Unreadable), File("big", Some(2048))];
    var cfg := Config(true, 1024);
    assert es[1..][1..] == [];
    assert Visit("/d", es[0], cfg, abs) == Walked([], true);
    assert WalkEntries("/d", es[1..], cfg, abs) == Walked([FileRecord("/d/big", 2048)], true);
  }

  /** `/data` holding one file `x.bin` of 2048 bytes. */
  function OneFileRoot(): Root
  {
    Root("/data", Listed([File("x.bin", Some(2048))]))
  }

  /** The same directory given twice on the command line is walked twice,
      and its file is appended twice to the bucket of its size. */
  lemma OverlappingRootsRecords(abs: Resolver)
    requires abs("/data", "x.bin") == Some("/data/x.bin")
    ensures ScanRecords([OneFileRoot(), OneFileRoot()], Config(false, 1024), abs)
            == [FileRecord("/data/x.bin", 2048), FileRecord("/data/x.bin", 2048)]
  {
    var cfg := Config(false, 1024);
    var roots := [OneFileRoot(), OneFileRoot()];
    var es := OneFileRoot().listing.entries;
    assert es[1..] == [];
    assert Walk("/data", OneFileRoot().listing, cfg, abs) == Walked([FileRecord("/data/x.bin", 2048)], true);
    assert roots[1..][1..] == [];
    assert ScanRecords(roots[1..], cfg, abs) == [FileRecord("/data/x.bin", 2048)];
  }

  lemma OverlappingRootsIndex()
    ensures var rs := [FileRecord("/data/x.bin", 2048), FileRecord("/data/x.bin", 2048)];
            && InsertAll(map[], rs) == map[2048 := ["/data/x.bin", "/data/x.bin"]]
            && InsertAllOnce(map[], rs) == map[2048 := ["/data/x.bin"]]
  {
    var rs := [FileRecord("/data/x.bin", 2048), FileRecord("/data/x.bin", 2048)];
    assert rs[1..][1..] == [];
    assert Inserted(map[], 2048, "/data/x.bin") == map[2048 := ["/data/x.bin"]] by {
      assert Lookup(map[], 2048) + ["/data/x.bin"] == ["/data/x.bin"];
    }
    assert Inserted(map[2048 := ["/data/x.bin"]], 2048, "/data/x.bin")
        == map[2048 := ["/data/x.bin", "/data/x.bin"]] by {
      assert ["/data/x.bin"] + ["/data/x.bin"] == ["/data/x.bin", "/data/x.bin"];
    }
    assert InsertedOnce(map[2048 := ["/data/x.bin"]], 2048, "/data/x.bin") == map[2048 := ["/data/x.bin"]] by {
      assert "/data/x.bin" in Lookup(map[2048 := ["/data/x.bin"]], 2048);
    }
    assert InsertAll(map[], rs) == InsertAll(map[2048 := ["/data/x.bin"]], rs[1..]);
    assert InsertAllOnce(map[], rs) == InsertAllOnce(map[2048 := ["/data/x.bin"]], rs[1..]);
  }

  /** Hashing that bucket puts the one file twice under its digest, so the
      report counts it as a group of two identical files. */
  lemma OverlappingRootsGroup(hash: Hasher)
    requires hash("/data/x.bin") == Some("H")
    ensures GroupFrom(map[], map[2048 := ["/data/x.bin", "/data/x.bin"]], [2048], hash)
            == Grouping(map["H" := ["/data/x.bin", "/data/x.bin"]], true)
    ensures var res := map["H" := ["/data/x.bin", "/data/x.bin"]];
            Shown(res, ["H"]) == ["H"] && PathCount(res, ["H"]) == 2
  {
    var paths := ["/data/x.bin", "/data/x.bin"];
    var index := map[2048 := paths];
    assert Lookup(index, 2048) == paths;
    assert paths[1..][1..] == [];
    var r1 := map["H" := ["/data/x.bin"]];
    var r2 := map["H" := paths];
    assert map[]["H" := Lookup(map[], "H") + ["/data/x.bin"]] == r1 by {
      assert Lookup(map[], "H") + ["/data/x.bin"] == ["/data/x.bin"];
    }
    assert r1["H" := Lookup(r1, "H") + ["/data/x.bin"]] == r2 by {
      assert ["/data/x.bin"] + ["/data/x.bin"] == paths;
    }
    assert HashInto(map[], paths, hash) == HashInto(r1, paths[1..], hash);
    assert HashInto(r1, paths[1..], hash) == HashInto(r2, [], hash);
    assert GroupFrom(map[], index, [2048], hash) == GroupFrom(r2, index, [], hash);
    assert ["H"][..0] == [];
  }

  /** `duff /data /data`: one file is reported as a group of two identical
      files. With the corrected insert its bucket holds it once, and it
      forms no group. */
  lemma OverlappingRootsScenario(abs: Resolver, hash: Hasher)
    requires abs("/data", "x.bin") == Some("/data/x.bin") && hash("/data/x.bin") == Some("H")
    ensures var rs := ScanRecords([OneFileRoot(), OneFileRoot()], Config(false, 1024), abs);
            && InsertAll(map[], rs) == map[2048 := ["/data/x.bin", "/data/x.bin"]]
            && GroupFrom(map[], InsertAll(map[], rs), [2048], hash)
               == Grouping(map["H" := ["/data/x.bin", "/data/x.bin"]], true)
            && InsertAllOnce(map[], rs) == map[2048 := ["/data/x.bin"]]
            && GroupFrom(map[], InsertAllOnce(map[], rs), [2048], hash) == Grouping(map[], true)
  {
    assert |Lookup(map[2048 := ["/data/x.bin"]], 2048)| == 1;
    assert GroupFrom(map[], map[2048 := ["/data/x.bin"]], [2048], hash)
        == GroupFrom(map[], map[2048 := ["/data/x.bin"]], [], hash);
    OverlappingRootsRecords(abs);
    OverlappingRootsIndex();
    OverlappingRootsGroup(hash);
  }
}
