/**
  The URLs and the output path the loop builds by concatenation
  (main.cpp:86, 107-111, 115, 125). `Segments` splits a string at every `/`
  and is how the lemmas say which field ends up in which part.
 */
module Paths {

  const SERVER: string := "http://cydia.saurik.com"
  const API: string := SERVER + "/tss@home/api"
  const SIGNING_URL: string := SERVER + "/TSS/controller?action=2"

  /** The inventory request for one ECID (main.cpp:86): the check endpoint, then the ECID. */
  function InventoryUrl(ecid: string): (u: string)
    ensures |u| == |API| + 7 + |ecid|
    ensures u[..|API| + 7] == API + "/check/" && u[|API| + 7..] == ecid
  {
    API + "/check/" + ecid
  }

  /** The manifest request for one record (main.cpp:115): the manifest endpoint, then the board last. */
  function ManifestUrl(build: string, chip: string, board: string): (u: string)
    ensures |u| == |API| + 14 + |build| + 1 + |chip| + 1 + |board|
    ensures u[..|API| + 14] == API + "/manifest.xml/"
    ensures u[|u| - |board|..] == board
  {
    API + "/manifest.xml/" + build + "/" + chip + "/" + board
  }

  /** The directory created for a record (main.cpp:107): under `shsh`, named after the model and the ECID. */
  function BlobDir(model: string, ecid: string): (d: string)
    ensures |d| == 5 + |model| + 1 + |ecid|
    ensures d[..5] == "shsh/" && d[|d| - |ecid| - 1..] == "-" + ecid
  {
    "shsh/" + model + "-" + ecid
  }

  /** The file name of a record's blob (main.cpp:110): the ECID first, the build and `.shsh` last. */
  function BlobFileName(ecid: string, model: string, firmware: string, build: string): (f: string)
    ensures |f| == |ecid| + 1 + |model| + 1 + |firmware| + 1 + |build| + 5
    ensures f[..|ecid| + 1] == ecid + "-"
    ensures f[|f| - |build| - 6..] == "-" + build + ".shsh"
  {
    ecid + "-" + model + "-" + firmware + "-" + build + ".shsh"
  }

  /** The path the blob is written to (main.cpp:111): inside the record's directory, under its file name. */
  function BlobPath(model: string, ecid: string, firmware: string, build: string): (p: string)
    ensures var dir := BlobDir(model, ecid);
      && |p| == |dir| + 1 + |BlobFileName(ecid, model, firmware, build)|
      && p[..|dir| + 1] == dir + "/"
      && p[|dir| + 1..] == BlobFileName(ecid, model, firmware, build)
  {
    BlobDir(model, ecid) + "/" + BlobFileName(ecid, model, firmware, build)
  }

  /** The parts of `s` between slashes: `s.split('/')`, so never empty. */
  function Segments(s: string): (r: seq<string>)
    ensures |r| >= 1
  {
    if s == [] then [""]
    else if s[0] == '/' then [""] + Segments(s[1..])
    else
      var rest := Segments(s[1..]);
      [[s[0]] + rest[0]] + rest[1..]
  }

  /** A string without a slash is one segment. */
  lemma {:induction false} SegmentsOfName(x: string)
    requires '/' !in x
    ensures Segments(x) == [x]
  {
    if x != [] {
      assert '/' !in x[1..];
      SegmentsOfName(x[1..]);
      assert [x[0]] + x[1..] == x;
    }
  }

  /** Joining with a slash concatenates the segments. */
  lemma {:induction false} SegmentsJoin(x: string, y: string)
    ensures Segments(x + "/" + y) == Segments(x) + Segments(y)
  {
    var s := x + "/" + y;
    if x == [] {
      assert s == "/" + y && s[1..] == y;
    } else {
      assert s[0] == x[0];
      assert s[1..] == x[1..] + "/" + y;
      SegmentsJoin(x[1..], y);
    }
  }

  /**
    The blob goes one level below `shsh`, into the directory created for it,
    under its file name: provided no field holds a slash, the path has exactly
    those three segments.
   */
  lemma BlobPathLayout(model: string, ecid: string, firmware: string, build: string)
    requires '/' !in model && '/' !in ecid && '/' !in firmware && '/' !in build
    ensures Segments(BlobPath(model, ecid, firmware, build)) ==
              ["shsh", model + "-" + ecid, BlobFileName(ecid, model, firmware, build)]
  {
    var dir := model + "-" + ecid;
    var name := BlobFileName(ecid, model, firmware, build);
    assert '/' !in dir;
    assert '/' !in name by {
      assert name == ecid + "-" + model + "-" + firmware + "-" + build + ".shsh";
    }
    assert BlobPath(model, ecid, firmware, build) == "shsh" + "/" + dir + "/" + name;
    SegmentsJoin("shsh" + "/" + dir, name);
    SegmentsJoin("shsh", dir);
    SegmentsOfName("shsh");
    SegmentsOfName(dir);
    SegmentsOfName(name);
  }

  /** The record's build, chip and board are the last three segments of its manifest URL. */
  lemma ManifestUrlLayout(build: string, chip: string, board: string)
    requires '/' !in build && '/' !in chip && '/' !in board
    ensures Segments(ManifestUrl(build, chip, board)) ==
              Segments(API + "/manifest.xml") + [build, chip, board]
  {
    var base := API + "/manifest.xml";
    assert ManifestUrl(build, chip, board) == base + "/" + (build + "/" + (chip + "/" + board));
    SegmentsJoin(base, build + "/" + (chip + "/" + board));
    SegmentsJoin(build, chip + "/" + board);
    SegmentsJoin(chip, board);
    SegmentsOfName(build);
    SegmentsOfName(chip);
    SegmentsOfName(board);
  }

  /** The ECID is the last segment of the inventory URL. */
  lemma InventoryUrlLayout(ecid: string)
    requires '/' !in ecid
    ensures Segments(InventoryUrl(ecid)) == Segments(API + "/check") + [ecid]
  {
    assert InventoryUrl(ecid) == (API + "/check") + "/" + ecid;
    SegmentsJoin(API + "/check", ecid);
    SegmentsOfName(ecid);
  }
}
