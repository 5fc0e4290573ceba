/**
  The body of `main` (main.cpp:77-140): check the arguments, normalise the
  ECID, fetch the inventory, and for every record, in the order the server
  sent them, create its directory, fetch and patch its manifest, post it for
  signing and save a non-empty answer.

  The network is an input: the inventory body, what `json::parse` made of it,
  and per record the manifest body and the signing answer. A record with no
  answer given gets empty bodies, which is what a transfer that fails before
  any data arrives returns; a partial body or an error page is any other
  string a `Reply` can hold.
 */
module Checker {
  import opened Wrappers
  import opened Text
  import opened Ecid
  import opened JsonFields
  import opened Manifest
  import opened Paths

  /** The fields read from each record (main.cpp:101-105). */
  datatype Fields = Fields(model: string, build: string, firmware: string, chip: string, board: string)

  /** Each field comes from its own key, and a record that is not an object has none. */
  function FieldsOf(blob: Json): (f: Fields)
    ensures !blob.Obj? ==> f == Fields("", "", "", "", "")
    ensures f.model != "" ==> HasField(blob, "model")
    ensures f.build != "" ==> HasField(blob, "build")
    ensures f.firmware != "" ==> HasField(blob, "firmware")
    ensures f.chip != "" ==> HasField(blob, "chip")
    ensures f.board != "" ==> HasField(blob, "board")
  {
    Fields(JsonStr(blob, "model"), JsonStr(blob, "build"), JsonStr(blob, "firmware"),
           JsonStr(blob, "chip"), JsonStr(blob, "board"))
  }

  /** What `json::parse` made of the inventory body. */
  datatype Inventory = Array(elems: seq<Json>) | NotArray | Malformed

  /** The server's answers for one record: the manifest and the signed blob. */
  datatype Reply = Reply(manifest: string, blob: string)

  function ReplyAt(replies: seq<Reply>, i: nat): Reply {
    if i < |replies| then replies[i] else Reply("", "")
  }

  /** What the program does to the outside world, in order. */
  datatype Effect =
    | Get(url: string)
    | MakeDir(path: string)
    | Post(url: string, body: string)
    | Save(path: string, data: string)

  /** How the program ends: an exit code, or abnormally through an uncaught exception. */
  datatype Termination = Exit(code: int) | Abort

  datatype Run = Run(effects: seq<Effect>, end: Termination)

  /** One pass of the loop body; `completed` is false when the patch throws. */
  datatype Step = Step(effects: seq<Effect>, completed: bool)

  /** The effects of one record, and whether the loop goes on after it. */
  function RecordStep(ecid: string, blob: Json, reply: Reply): Step {
    var f := FieldsOf(blob);
    var before := [MakeDir(BlobDir(f.model, ecid)), Get(ManifestUrl(f.build, f.chip, f.board))];
    match PatchManifest(reply.manifest, ecid)
    case Err(_) => Step(before, false)
    case Ok(posted) =>
      var saved := if reply.blob == "" then []
                   else [Save(BlobPath(f.model, ecid, f.firmware, f.build), reply.blob)];
      Step(before + [Post(SIGNING_URL, posted)] + saved, true)
  }

  /** The loop over the inventory array, record by record. */
  function Records(ecid: string, elems: seq<Json>, replies: seq<Reply>): (r: Run)
    ensures r.end == Exit(0) || r.end == Abort
  {
    if elems == [] then Run([], Exit(0))
    else
      var n := |elems| - 1;
      var prior := Records(ecid, elems[..n], replies);
      if prior.end == Abort then prior
      else
        var step := RecordStep(ecid, elems[n], ReplyAt(replies, n));
        Run(prior.effects + step.effects, if step.completed then Exit(0) else Abort)
  }

  /** The whole program; `args` are the command-line arguments after the program name. */
  function Program(args: seq<string>, inventory: string, parsed: Inventory, replies: seq<Reply>): (r: Run)
    ensures r.end == Exit(1) <==> |args| == 0 || inventory == "" || !parsed.Array?
    ensures r.end == Exit(0) || r.end == Exit(1) || r.end == Abort
    ensures |args| > 0 ==> |r.effects| > 0 && r.effects[0] == Get(InventoryUrl(ConvertEcidToDecimal(args[0])))
  {
    if |args| == 0 then Run([], Exit(1))
    else
      var ecid := ConvertEcidToDecimal(args[0]);
      var fetched := [Get(InventoryUrl(ecid))];
      if inventory == "" || !parsed.Array? then Run(fetched, Exit(1))
      else
        var r := Records(ecid, parsed.elems, replies);
        Run(fetched + r.effects, r.end)
  }

  /** A run that aborted before its last record is the run without it. */
  lemma AbortPersists(ecid: string, elems: seq<Json>, replies: seq<Reply>)
    requires elems != []
    requires Records(ecid, elems[..|elems| - 1], replies).end == Abort
    ensures Records(ecid, elems, replies) == Records(ecid, elems[..|elems| - 1], replies)
  {
  }

  /** Once a record aborts the run, later records change nothing. */
  lemma {:induction false} AbortIsFinal(ecid: string, elems: seq<Json>, replies: seq<Reply>, k: nat)
    requires k <= |elems|
    requires Records(ecid, elems[..k], replies).end == Abort
    ensures Records(ecid, elems, replies) == Records(ecid, elems[..k], replies)
    decreases |elems| - k
  {
    if k < |elems| {
      var shorter := elems[..|elems| - 1];
      assert shorter[..k] == elems[..k];
      AbortIsFinal(ecid, shorter, replies, k);
      AbortPersists(ecid, elems, replies);
    } else {
      assert elems[..k] == elems;
    }
  }

  /** The bodies posted for signing, in order. */
  function Posted(effects: seq<Effect>): seq<string> {
    if effects == [] then []
    else
      var last := effects[|effects| - 1];
      Posted(effects[..|effects| - 1]) + if last.Post? then [last.body] else []
  }

  /** The files written, as (path, contents), in order. */
  function Saved(effects: seq<Effect>): seq<(string, string)> {
    if effects == [] then []
    else
      var last := effects[|effects| - 1];
      Saved(effects[..|effects| - 1]) + if last.Save? then [(last.path, last.data)] else []
  }

  lemma {:induction false} PostedAppend(a: seq<Effect>, b: seq<Effect>)
    ensures Posted(a + b) == Posted(a) + Posted(b)
    decreases |b|
  {
    if b != [] {
      var n := |b| - 1;
      assert (a + b)[..|a + b| - 1] == a + b[..n];
      PostedAppend(a, b[..n]);
    } else {
      assert a + b == a;
    }
  }

  lemma {:induction false} SavedAppend(a: seq<Effect>, b: seq<Effect>)
    ensures Saved(a + b) == Saved(a) + Saved(b)
    decreases |b|
  {
    if b != [] {
      var n := |b| - 1;
      assert (a + b)[..|a + b| - 1] == a + b[..n];
      SavedAppend(a, b[..n]);
    } else {
      assert a + b == a;
    }
  }

  /** Where a record's blob is saved. */
  function PathOf(ecid: string, blob: Json): string {
    var f := FieldsOf(blob);
    BlobPath(f.model, ecid, f.firmware, f.build)
  }

  /**
    The files a run should write: one per record whose signing answer is not
    empty, at that record's path, in array order.
   */
  function ExpectedSaves(ecid: string, elems: seq<Json>, replies: seq<Reply>): seq<(string, string)> {
    if elems == [] then []
    else
      var n := |elems| - 1;
      var reply := ReplyAt(replies, n);
      ExpectedSaves(ecid, elems[..n], replies) +
        if reply.blob == "" then [] else [(PathOf(ecid, elems[n]), reply.blob)]
  }

  /** A completed step posts the patched manifest and saves a non-empty answer. */
  lemma CompletedStepOutputs(ecid: string, blob: Json, reply: Reply)
    requires !Dangling(reply.manifest)
    ensures var step := RecordStep(ecid, blob, reply);
      && step.completed
      && Posted(step.effects) == [PatchManifest(reply.manifest, ecid).value]
      && Saved(step.effects) == if reply.blob == "" then [] else [(PathOf(ecid, blob), reply.blob)]
  {
    var e := RecordStep(ecid, blob, reply).effects;
    assert e[..2] + [e[2]] == e[..3];
    PostedAppend(e[..2], [e[2]]);
    SavedAppend(e[..2], [e[2]]);
    if reply.blob != "" {
      assert e == e[..3] + [e[3]];
      PostedAppend(e[..3], [e[3]]);
      SavedAppend(e[..3], [e[3]]);
    } else {
      assert e == e[..3];
    }
  }

  /** A step whose patch throws has created the directory and fetched, nothing more. */
  lemma AbortedStepOutputs(ecid: string, blob: Json, reply: Reply)
    requires Dangling(reply.manifest)
    ensures var step := RecordStep(ecid, blob, reply);
      && !step.completed
      && Posted(step.effects) == [] && Saved(step.effects) == []
  {
    var e := RecordStep(ecid, blob, reply).effects;
    assert e == e[..1] + [e[1]] && e[..1] == [] + [e[0]];
    PostedAppend(e[..1], [e[1]]);
    SavedAppend(e[..1], [e[1]]);
    PostedAppend([], [e[0]]);
    SavedAppend([], [e[0]]);
  }

  /**
    A record creates its directory and fetches its manifest; unless the patch
    throws, it then posts the patched manifest, and saves a non-empty answer
    at the record's path.
   */
  lemma StepShape(ecid: string, blob: Json, reply: Reply)
    ensures var step := RecordStep(ecid, blob, reply);
      var f := FieldsOf(blob);
      && |step.effects| >= 2
      && step.effects[0] == MakeDir(BlobDir(f.model, ecid))
      && step.effects[1] == Get(ManifestUrl(f.build, f.chip, f.board))
      && (step.completed <==> !Dangling(reply.manifest))
      && |step.effects| == (if !step.completed then 2 else if reply.blob == "" then 3 else 4)
      && (step.completed ==> step.effects[2] == Post(SIGNING_URL, PatchManifest(reply.manifest, ecid).value))
      && (|step.effects| == 4 ==> step.effects[3] == Save(PathOf(ecid, blob), reply.blob))
  {
  }

  /** What one step posts and saves. */
  lemma StepOutputs(ecid: string, blob: Json, reply: Reply)
    ensures var step := RecordStep(ecid, blob, reply);
      && (step.completed <==> !Dangling(reply.manifest))
      && (step.completed ==>
            && Posted(step.effects) == [PatchManifest(reply.manifest, ecid).value]
            && Saved(step.effects) ==
                 if reply.blob == "" then [] else [(PathOf(ecid, blob), reply.blob)])
      && (!step.completed ==> Posted(step.effects) == [] && Saved(step.effects) == [])
  {
    if Dangling(reply.manifest) {
      AbortedStepOutputs(ecid, blob, reply);
    } else {
      CompletedStepOutputs(ecid, blob, reply);
    }
  }

  /** The last record aborts the run when nothing before it did and its manifest is dangling. */
  lemma AbortStep(ecid: string, elems: seq<Json>, replies: seq<Reply>)
    requires elems != []
    ensures var n := |elems| - 1;
      Records(ecid, elems, replies).end == Abort <==>
        Records(ecid, elems[..n], replies).end == Abort || Dangling(ReplyAt(replies, n).manifest)
  {
    var n := |elems| - 1;
    StepOutputs(ecid, elems[n], ReplyAt(replies, n));
  }

  /** Some record among the first `m` has a dangling manifest. */
  predicate SomeDangling(replies: seq<Reply>, m: nat) {
    exists i :: 0 <= i < m && Dangling(ReplyAt(replies, i).manifest)
  }

  lemma SomeDanglingStep(replies: seq<Reply>, m: nat)
    ensures SomeDangling(replies, m + 1) <==>
              SomeDangling(replies, m) || Dangling(ReplyAt(replies, m).manifest)
  {
    if SomeDangling(replies, m + 1) {
      var i :| 0 <= i < m + 1 && Dangling(ReplyAt(replies, i).manifest);
      if i < m {
        assert SomeDangling(replies, m);
      }
    }
  }

  /** The run aborts exactly when some record's manifest holds the bare placeholder. */
  lemma {:induction false} AbortIff(ecid: string, elems: seq<Json>, replies: seq<Reply>)
    ensures Records(ecid, elems, replies).end == Abort <==>
              exists i :: 0 <= i < |elems| && Dangling(ReplyAt(replies, i).manifest)
  {
    if elems != [] {
      var n := |elems| - 1;
      AbortIff(ecid, elems[..n], replies);
      AbortStep(ecid, elems, replies);
      SomeDanglingStep(replies, n);
      assert SomeDangling(replies, n) <==> Records(ecid, elems[..n], replies).end == Abort;
    }
  }

  /** A run that ends normally ended normally before its last record, and that record completed. */
  lemma NormalStep(ecid: string, elems: seq<Json>, replies: seq<Reply>)
    requires elems != [] && Records(ecid, elems, replies).end == Exit(0)
    ensures var n := |elems| - 1;
      var prior := Records(ecid, elems[..n], replies);
      && prior.end == Exit(0)
      && !Dangling(ReplyAt(replies, n).manifest)
      && Records(ecid, elems, replies).effects ==
           prior.effects + RecordStep(ecid, elems[n], ReplyAt(replies, n)).effects
  {
    var n := |elems| - 1;
    StepOutputs(ecid, elems[n], ReplyAt(replies, n));
  }

  /** `posted` holds, in order, the patched manifests of the first records. */
  predicate PostsMatch(ecid: string, replies: seq<Reply>, posted: seq<string>) {
    forall i :: 0 <= i < |posted| ==> PatchManifest(ReplyAt(replies, i).manifest, ecid) == Ok(posted[i])
  }

  lemma PostsMatchExtend(ecid: string, replies: seq<Reply>, before: seq<string>, x: string)
    requires PostsMatch(ecid, replies, before)
    requires PatchManifest(ReplyAt(replies, |before|).manifest, ecid) == Ok(x)
    ensures PostsMatch(ecid, replies, before + [x])
  {
    var posted := before + [x];
    forall i | 0 <= i < |posted|
      ensures PatchManifest(ReplyAt(replies, i).manifest, ecid) == Ok(posted[i])
    {
      if i < |before| {
        assert posted[i] == before[i];
      }
    }
  }

  /**
    A run that ends normally posted every record, in array order, each with
    its manifest patched; records with an empty signing answer included.
   */
  lemma {:induction false} PostsInArrayOrder(ecid: string, elems: seq<Json>, replies: seq<Reply>)
    requires Records(ecid, elems, replies).end == Exit(0)
    ensures var posted := Posted(Records(ecid, elems, replies).effects);
      |posted| == |elems| && PostsMatch(ecid, replies, posted)
  {
    if elems != [] {
      var n := |elems| - 1;
      var shorter := elems[..n];
      NormalStep(ecid, elems, replies);
      var prior := Records(ecid, shorter, replies);
      var step := RecordStep(ecid, elems[n], ReplyAt(replies, n));
      PostsInArrayOrder(ecid, shorter, replies);
      CompletedStepOutputs(ecid, elems[n], ReplyAt(replies, n));
      PostedAppend(prior.effects, step.effects);
      var before := Posted(prior.effects);
      var last := PatchManifest(ReplyAt(replies, n).manifest, ecid);
      assert Posted(Records(ecid, elems, replies).effects) == before + [last.value];
      PostsMatchExtend(ecid, replies, before, last.value);
    }
  }

  /**
    A run that ends normally writes exactly the expected files: nothing for a
    record whose signing answer is empty, and the later records still.
   */
  lemma {:induction false} SavesFollowReplies(ecid: string, elems: seq<Json>, replies: seq<Reply>)
    requires Records(ecid, elems, replies).end == Exit(0)
    ensures Saved(Records(ecid, elems, replies).effects) == ExpectedSaves(ecid, elems, replies)
  {
    if elems != [] {
      var n := |elems| - 1;
      NormalStep(ecid, elems, replies);
      var prior := Records(ecid, elems[..n], replies);
      var step := RecordStep(ecid, elems[n], ReplyAt(replies, n));
      SavesFollowReplies(ecid, elems[..n], replies);
      CompletedStepOutputs(ecid, elems[n], ReplyAt(replies, n));
      SavedAppend(prior.effects, step.effects);
    }
  }

  /** One more record extends the run by that record's step. */
  lemma RecordsExtend(ecid: string, elems: seq<Json>, replies: seq<Reply>, i: nat)
    requires i < |elems|
    requires Records(ecid, elems[..i], replies).end == Exit(0)
    ensures var step := RecordStep(ecid, elems[i], ReplyAt(replies, i));
      Records(ecid, elems[..i + 1], replies) ==
        Run(Records(ecid, elems[..i], replies).effects + step.effects,
            if step.completed then Exit(0) else Abort)
  {
    assert elems[..i + 1][..i] == elems[..i];
  }

  /** A record whose patch throws ends the loop with the effects so far. */
  lemma AbortEndsRecords(ecid: string, elems: seq<Json>, replies: seq<Reply>, i: nat)
    requires i < |elems|
    requires Records(ecid, elems[..i], replies).end == Exit(0)
    requires !RecordStep(ecid, elems[i], ReplyAt(replies, i)).completed
    ensures Records(ecid, elems, replies) ==
              Run(Records(ecid, elems[..i], replies).effects +
                  RecordStep(ecid, elems[i], ReplyAt(replies, i)).effects, Abort)
  {
    RecordsExtend(ecid, elems, replies, i);
    AbortIsFinal(ecid, elems, replies, i + 1);
  }

  /**
    An abort happens at the first record whose manifest holds the bare
    placeholder: the records before it were all posted and saved as usual,
    and nothing after it is posted or saved.
   */
  lemma AbortAtFirstDangling(ecid: string, elems: seq<Json>, replies: seq<Reply>, k: nat)
    requires k < |elems|
    requires Dangling(ReplyAt(replies, k).manifest)
    requires forall j :: 0 <= j < k ==> !Dangling(ReplyAt(replies, j).manifest)
    ensures var run := Records(ecid, elems, replies);
      && run.end == Abort
      && |Posted(run.effects)| == k
      && PostsMatch(ecid, replies, Posted(run.effects))
      && Saved(run.effects) == ExpectedSaves(ecid, elems[..k], replies)
  {
    var prefix := elems[..k];
    AbortIff(ecid, prefix, replies);
    var prior := Records(ecid, prefix, replies);
    var step := RecordStep(ecid, elems[k], ReplyAt(replies, k));
    PostsInArrayOrder(ecid, prefix, replies);
    SavesFollowReplies(ecid, prefix, replies);
    StepOutputs(ecid, elems[k], ReplyAt(replies, k));
    AbortEndsRecords(ecid, elems, replies, k);
    PostedAppend(prior.effects, step.effects);
    SavedAppend(prior.effects, step.effects);
  }

  /**
    The whole program once the inventory is an array: it aborts exactly when
    some manifest holds the bare placeholder; otherwise it exits with 0,
    having posted once per record and saved the expected files.
   */
  lemma ProgramOutcome(args: seq<string>, inventory: string, parsed: Inventory, replies: seq<Reply>)
    requires |args| > 0 && inventory != "" && parsed.Array?
    ensures var ecid := ConvertEcidToDecimal(args[0]);
      var run := Program(args, inventory, parsed, replies);
      && (run.end == Abort <==>
            exists i :: 0 <= i < |parsed.elems| && Dangling(ReplyAt(replies, i).manifest))
      && (run.end != Abort ==>
            && run.end == Exit(0)
            && |Posted(run.effects)| == |parsed.elems|
            && PostsMatch(ecid, replies, Posted(run.effects))
            && Saved(run.effects) == ExpectedSaves(ecid, parsed.elems, replies))
  {
    var ecid := ConvertEcidToDecimal(args[0]);
    var fetched := [Get(InventoryUrl(ecid))];
    var records := Records(ecid, parsed.elems, replies);
    AbortIff(ecid, parsed.elems, replies);
    PostedAppend(fetched, records.effects);
    SavedAppend(fetched, records.effects);
    assert fetched == [] + [fetched[0]];
    PostedAppend([], fetched);
    SavedAppend([], fetched);
    if records.end != Abort {
      PostsInArrayOrder(ecid, parsed.elems, replies);
      SavesFollowReplies(ecid, parsed.elems, replies);
    }
  }

  /**
    One pass of the loop body (main.cpp:101-136), with the patch done in
    place on `manifest`; `completed` is false where `replace` throws.
   */
  method ProcessRecord(ecid: string, blob: Json, reply: Reply) returns (step: Step)
    ensures step == RecordStep(ecid, blob, reply)
  {
    var model := JsonStr(blob, "model");
    var build := JsonStr(blob, "build");
    var firmware := JsonStr(blob, "firmware");
    var cpid := JsonStr(blob, "chip");
    var bdid := JsonStr(blob, "board");
    assert FieldsOf(blob) == Fields(model, build, firmware, cpid, bdid);
    var subdir := BlobDir(model, ecid);
    var effects := [MakeDir(subdir)];
    var path := BlobPath(model, ecid, firmware, build);
    effects := effects + [Get(ManifestUrl(build, cpid, bdid))];
    var manifest := reply.manifest;
    if Contains(manifest, PLACEHOLDER) {
      var pos := Find(manifest, TARGET);
      if pos.None? {
        return Step(effects, false);
      }
      manifest := manifest[..pos.value] + Replacement(ecid) + manifest[pos.value + |TARGET|..];
    }
    assert PatchManifest(reply.manifest, ecid) == Ok(manifest);
    effects := effects + [Post(SIGNING_URL, manifest)];
    if reply.blob == "" {
      return Step(effects, true);
    }
    effects := effects + [Save(path, reply.blob)];
    return Step(effects, true);
  }

  /** The `for` loop over the records (main.cpp:100-137). */
  method ProcessRecords(ecid: string, blobs: seq<Json>, replies: seq<Reply>) returns (run: Run)
    ensures run == Records(ecid, blobs, replies)
  {
    var effects := [];
    for i := 0 to |blobs|
      invariant Records(ecid, blobs[..i], replies) == Run(effects, Exit(0))
    {
      var step := ProcessRecord(ecid, blobs[i], ReplyAt(replies, i));
      RecordsExtend(ecid, blobs, replies, i);
      effects := effects + step.effects;
      if !step.completed {
        AbortEndsRecords(ecid, blobs, replies, i);
        return Run(effects, Abort);
      }
    }
    assert blobs[..|blobs|] == blobs;
    return Run(effects, Exit(0));
  }

  /**
    `main`: the argument and inventory checks, then the loop. It normalises the
    ECID with the corrected `ConvertEcidToDecimal`, so an argument of white
    space alone reads as 0 here where the source prints an indeterminate value.
   */
  method Execute(args: seq<string>, inventory: string, parsed: Inventory, replies: seq<Reply>)
    returns (run: Run)
    ensures run == Program(args, inventory, parsed, replies)
  {
    if |args| < 1 {
      return Run([], Exit(1));
    }
    var ecid := ConvertEcidToDecimal(args[0]);
    var fetched := [Get(InventoryUrl(ecid))];
    if inventory == "" {
      return Run(fetched, Exit(1));
    }
    if !parsed.Array? {
      return Run(fetched, Exit(1));
    }
    var records := ProcessRecords(ecid, parsed.elems, replies);
    return Run(fetched + records.effects, records.end);
  }
}
