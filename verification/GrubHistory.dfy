/** The write protocol and the text editor together, over any gap-free run. */
module GrubHistory {
  import opened Text
  import opened GrubConfig
  import opened GrubEdit
  import FlockProtocol

  /** The request applies `changes` to any text the parser accepts, and rejects the others. */
  ghost predicate Edits(r: FlockProtocol.Request, changes: seq<Change>) {
    forall text :: r.transform(text) == if Accepted(Lines(text)) then Some(EditedText(text, changes)) else None
  }

  /** Every commit is the edit listed for it. */
  ghost predicate AllEdit(commits: seq<FlockProtocol.Commit>, edits: seq<seq<Change>>) {
    |edits| == |commits|
    && forall k | 0 <= k < |commits| :: GoodChanges(edits[k]) && Edits(commits[k].request, edits[k])
  }

  /** The settings after all edits, in order. */
  function UpdatedBy(values: map<string, string>, edits: seq<seq<Change>>): map<string, string> {
    if edits == [] then values else UpdateAll(UpdatedBy(values, edits[..|edits| - 1]), edits[|edits| - 1])
  }

  /** The text is accepted and reads as `values`. */
  predicate Says(text: string, values: map<string, string>) {
    Accepted(Lines(text)) && ConfigOf(text).values == values
  }

  lemma EditSays(
    r: FlockProtocol.Request, changes: seq<Change>, before: string, after: string, values: map<string, string>)
    requires Edits(r, changes) && GoodChanges(changes) && r.transform(before) == Some(after) && Says(before, values)
    ensures Says(after, UpdateAll(values, changes))
  {
    assert after == EditedText(before, changes);
    EditRefinesMapUpdate(before, changes);
  }

  /** The `n`-th commit found what the original settings and the first `n` edits say. */
  ghost predicate SaysAfter(
    content: FlockProtocol.File, commits: seq<FlockProtocol.Commit>, edits: seq<seq<Change>>, n: nat)
    requires n <= |commits| && n <= |edits|
  {
    Says(FlockProtocol.ContentBefore(content, commits, n).text, UpdatedBy(ConfigOf(content.text).values, edits[..n]))
  }

  lemma UpdatedByOneMore(values: map<string, string>, edits: seq<seq<Change>>, n: nat)
    requires n < |edits|
    ensures UpdatedBy(values, edits[..n + 1]) == UpdateAll(UpdatedBy(values, edits[..n]), edits[n])
  {
    assert edits[..n + 1][..n] == edits[..n];
  }

  lemma SaysNext(
    content: FlockProtocol.File, commits: seq<FlockProtocol.Commit>, edits: seq<seq<Change>>, n: nat)
    requires AllEdit(commits, edits) && n < |commits| && FlockProtocol.Chained(content, commits, n)
    requires SaysAfter(content, commits, edits, n)
    ensures SaysAfter(content, commits, edits, n + 1)
  {
    var values := ConfigOf(content.text).values;
    var before := FlockProtocol.ContentBefore(content, commits, n).text;
    UpdatedByOneMore(values, edits, n);
    EditSays(commits[n].request, edits[n], before, commits[n].installed.text, UpdatedBy(values, edits[..n]));
  }

  lemma {:induction false} StepByStep(holds: nat -> bool, n: nat)
    requires holds(0) && forall k | 0 <= k < n && holds(k) :: holds(k + 1)
    ensures holds(n)
  {
    if n > 0 { StepByStep(holds, n - 1); }
  }

  lemma ChainReads(
    content: FlockProtocol.File, commits: seq<FlockProtocol.Commit>, edits: seq<seq<Change>>)
    requires |edits| == |commits| && SaysAfter(content, commits, edits, 0)
    requires forall k | 0 <= k < |commits| && SaysAfter(content, commits, edits, k) ::
      SaysAfter(content, commits, edits, k + 1)
    ensures SaysAfter(content, commits, edits, |commits|)
  {
    StepByStep((k: nat) => k <= |commits| && SaysAfter(content, commits, edits, k), |commits|);
  }

  lemma SameSays(text: string, values: map<string, string>, text': string, values': map<string, string>)
    requires Says(text, values) && text' == text && values' == values
    ensures Says(text', values')
  {
  }

  /** However many GRUB writers interleave, fail and retry, as long as none locks late: the file
      is accepted again and says exactly what the committed changes, applied to the original
      settings in commit order, say; nothing committed is lost. */
  lemma CommittedChangesAreAllThere(
    content: FlockProtocol.File, events: FlockProtocol.Schedule, edits: seq<seq<Change>>)
    requires Accepted(Lines(content.text)) && FlockProtocol.GapFree(FlockProtocol.Init(content), events)
    requires AllEdit(FlockProtocol.Run(FlockProtocol.Init(content), events).disk.commits, edits)
    ensures
      var after := FlockProtocol.Current(FlockProtocol.Run(FlockProtocol.Init(content), events).disk);
      Says(after.text, UpdatedBy(ConfigOf(content.text).values, edits))
  {
    var d := FlockProtocol.Run(FlockProtocol.Init(content), events).disk;
    FlockProtocol.GapFreeRunsAreSerial(content, events);
    SerialSays(content, d, edits);
  }

  lemma SerialSays(content: FlockProtocol.File, d: FlockProtocol.Disk, edits: seq<seq<Change>>)
    requires Accepted(Lines(content.text)) && FlockProtocol.Serial(content, d) && AllEdit(d.commits, edits)
    ensures Says(FlockProtocol.Current(d).text, UpdatedBy(ConfigOf(content.text).values, edits))
  {
    var (commits, values) := (d.commits, ConfigOf(content.text).values);
    SameSays(content.text, values,
      FlockProtocol.ContentBefore(content, commits, 0).text, UpdatedBy(values, edits[..0]));
    forall k | 0 <= k < |commits| && SaysAfter(content, commits, edits, k)
      ensures SaysAfter(content, commits, edits, k + 1)
    {
      assert FlockProtocol.Chained(content, commits, k);
      SaysNext(content, commits, edits, k);
    }
    ChainReads(content, commits, edits);
    assert edits[..|commits|] == edits;
    SameSays(FlockProtocol.ContentBefore(content, commits, |commits|).text, UpdatedBy(values, edits[..|commits|]),
      FlockProtocol.Current(d).text, UpdatedBy(values, edits));
  }
}
