/** Batches of inbound or outbound handlers on a v2ray server. A server keeps one table for inbounds and one for
    outbounds with the same rules: a tag names at most one handler, handlers without a tag pile up. */
module Handlers {
  import opened Kube

  /** A converted handler configuration; `builds` says whether its own conversion step succeeds. */
  datatype Handler = Handler(tag: string, settings: string, builds: bool)

  datatype Table = Table(tagged: map<string, Handler>, untagged: seq<Handler>)

  /** The server's add: refused when the tag is taken. */
  function Install(table: Table, h: Handler): Option<Table> {
    if h.tag == "" then Some(table.(untagged := table.untagged + [h]))
    else if h.tag in table.tagged then None
    else Some(table.(tagged := table.tagged[h.tag := h]))
  }

  /** The server's remove: refused when nothing has the tag. */
  function Drop(table: Table, tag: string): Option<Table> {
    if tag == "" || tag !in table.tagged then None else Some(table.(tagged := table.tagged - {tag}))
  }

  /** How each RPC of a batch is answered, by its position. */
  type Answers = nat -> Answer

  /** A batch and where it stopped: `count` handlers were dealt with. */
  datatype Outcome = Outcome(table: Table, count: nat, failed: bool)

  function AddOne(table: Table, h: Handler, rpc: Answer): Option<Table> {
    if !h.builds || rpc != Fine then None else Install(table, h)
  }

  function AddFrom(table: Table, hs: seq<Handler>, ok: Answers, i: nat): Outcome
    requires i <= |hs|
    decreases |hs| - i
  {
    if i == |hs| then Outcome(table, i, false)
    else
      match AddOne(table, hs[i], ok(i))
      case None => Outcome(table, i, true)
      case Some(next) => AddFrom(next, hs, ok, i + 1)
  }

  /** AddInbound and AddOutbound: `converted` is the outcome of the conversion of the whole configuration. */
  function AddBatch(table: Table, converted: Option<seq<Handler>>, ok: Answers): Outcome {
    if converted.None? || converted.value == [] then Outcome(table, 0, true)
    else AddFrom(table, converted.value, ok, 0)
  }

  function RemoveFrom(table: Table, hs: seq<Handler>, ok: Answers, i: nat): Outcome
    requires i <= |hs|
    decreases |hs| - i
  {
    if i == |hs| then Outcome(table, i, false)
    else
      match if ok(i) == Fine then Drop(table, hs[i].tag) else None
      case None => Outcome(table, i, true)
      case Some(next) => RemoveFrom(next, hs, ok, i + 1)
  }

  /** RemoveInbound and RemoveOutbound: every tag is looked at before the first removal. */
  function RemoveBatch(table: Table, converted: Option<seq<Handler>>, ok: Answers): Outcome {
    if converted.None? || converted.value == [] then Outcome(table, 0, true)
    else if exists h | h in converted.value :: h.tag == "" then Outcome(table, 0, true)
    else RemoveFrom(table, converted.value, ok, 0)
  }

  /** One direction of a server's handler service. */
  class HandlerService {
    var table: Table

    constructor (table: Table)
      ensures this.table == table
    {
      this.table := table;
    }

    method Add(converted: Option<seq<Handler>>, ok: Answers) returns (failed: bool)
      modifies this
      ensures var end := AddBatch(old(table), converted, ok);
              table == end.table && failed == end.failed
    {
      if converted.None? || |converted.value| == 0 {
        return true;
      }
      var hs := converted.value;
      for i := 0 to |hs|
        invariant AddFrom(table, hs, ok, i) == AddBatch(old(table), converted, ok)
      {
        var h := hs[i];
        if !h.builds || ok(i) != Fine {
          return true;
        }
        var next := Install(table, h);
        if next.None? {
          return true;
        }
        table := next.value;
      }
      return false;
    }

    method Remove(converted: Option<seq<Handler>>, ok: Answers) returns (failed: bool)
      modifies this
      ensures var end := RemoveBatch(old(table), converted, ok);
              table == end.table && failed == end.failed
    {
      if converted.None? || |converted.value| == 0 {
        return true;
      }
      var hs := converted.value;
      var tags: seq<string> := [];
      for i := 0 to |hs|
        invariant |tags| == i && forall j | 0 <= j < i :: tags[j] == hs[j].tag && hs[j].tag != ""
      {
        if hs[i].tag == "" {
          assert hs[i] in hs;
          return true;
        }
        tags := tags + [hs[i].tag];
      }
      for i := 0 to |tags|
        invariant RemoveFrom(table, hs, ok, i) == RemoveBatch(old(table), converted, ok)
      {
        if ok(i) != Fine {
          return true;
        }
        var next := Drop(table, tags[i]);
        if next.None? {
          return true;
        }
        table := next.value;
      }
      return false;
    }
  }

  // --- batches are prefix-shaped ---

  function Tags(hs: seq<Handler>): set<string> {
    set h | h in hs && h.tag != "" :: h.tag
  }

  function Untagged(hs: seq<Handler>): seq<Handler> {
    if hs == [] then []
    else
      var n := |hs| - 1;
      Untagged(hs[..n]) + if hs[n].tag == "" then [hs[n]] else []
  }

  /** The handlers can be installed one after the other: no tag is taken or used twice. */
  ghost predicate Installable(table: Table, hs: seq<Handler>) {
    forall i | 0 <= i < |hs| && hs[i].tag != "" ::
      hs[i].tag !in table.tagged && hs[i].tag !in Tags(hs[..i])
  }

  /** `after` is `before` with exactly the handlers of `hs` installed. */
  ghost predicate Installed(before: Table, after: Table, hs: seq<Handler>) {
    && after.tagged.Keys == before.tagged.Keys + Tags(hs)
    && (forall k | k in before.tagged :: after.tagged[k] == before.tagged[k])
    && (forall h | h in hs && h.tag != "" :: h.tag in after.tagged && after.tagged[h.tag] == h)
    && after.untagged == before.untagged + Untagged(hs)
  }

  lemma InstallableOneMore(table: Table, hs: seq<Handler>, h: Handler)
    requires Installable(table, hs)
    ensures Installable(table, hs + [h]) <==> h.tag == "" || (h.tag !in table.tagged && h.tag !in Tags(hs))
  {
    var more := hs + [h];
    assert more[|hs|] == h && more[..|hs|] == hs;
    forall i | 0 <= i < |hs|
      ensures more[i] == hs[i] && more[..i] == hs[..i]
    {
    }
  }

  lemma InstalledOneMore(before: Table, table: Table, hs: seq<Handler>, h: Handler)
    requires Installed(before, table, hs) && Install(table, h).Some?
    ensures Installed(before, Install(table, h).value, hs + [h])
  {
    var more := hs + [h];
    var next := Install(table, h).value;
    assert more[..|hs|] == hs;
    assert forall g :: g in more <==> g in hs || g == h;
    assert Tags(more) == Tags(hs) + if h.tag == "" then {} else {h.tag};
    assert next.untagged == before.untagged + Untagged(more);
  }

  /** Where an add can be after `i` handlers. */
  ghost predicate Adding(before: Table, table: Table, hs: seq<Handler>, i: nat) {
    && i <= |hs|
    && Installable(before, hs[..i]) && Installed(before, table, hs[..i])
    && forall j | 0 <= j < i :: hs[j].builds
  }

  lemma AddOneExact(before: Table, table: Table, hs: seq<Handler>, i: nat, rpc: Answer)
    requires i < |hs| && Adding(before, table, hs, i)
    ensures match AddOne(table, hs[i], rpc)
            case Some(next) => Adding(before, next, hs, i + 1)
            case None => !hs[i].builds || rpc != Fine || !Installable(before, hs[..i + 1])
  {
    var h, start := hs[i], hs[..i];
    assert hs[..i + 1] == start + [h];
    InstallableOneMore(before, start, h);
    if Install(table, h).Some? {
      InstalledOneMore(before, table, start, h);
    }
  }

  lemma {:induction false} AddFromExact(before: Table, table: Table, hs: seq<Handler>, ok: Answers, i: nat)
    requires Adding(before, table, hs, i)
    ensures var end := AddFrom(table, hs, ok, i);
            && Adding(before, end.table, hs, end.count)
            && (end.failed <==> end.count < |hs|)
            && (end.failed ==>
                  !hs[end.count].builds || ok(end.count) != Fine || !Installable(before, hs[..end.count + 1]))
    decreases |hs| - i
  {
    if i < |hs| {
      AddOneExact(before, table, hs, i, ok(i));
      var next := AddOne(table, hs[i], ok(i));
      if next.Some? {
        AddFromExact(before, next.value, hs, ok, i + 1);
      }
    }
  }

  lemma InstallablePrefix(table: Table, hs: seq<Handler>, n: nat)
    requires n <= |hs| && Installable(table, hs)
    ensures Installable(table, hs[..n])
  {
    forall i | 0 <= i < n
      ensures hs[..n][i] == hs[i] && hs[..n][..i] == hs[..i]
    {
    }
  }

  /** An add leaves exactly a prefix of the batch installed; all of it if and only if it does not fail. */
  lemma AddLeavesPrefix(table: Table, hs: seq<Handler>, ok: Answers)
    ensures var end := AddBatch(table, Some(hs), ok);
            && end.count <= |hs|
            && Installed(table, end.table, hs[..end.count])
            && (end.failed <==> hs == [] || end.count < |hs|)
  {
    if hs != [] {
      AddFromExact(table, table, hs, ok, 0);
    }
  }

  /** Handler `i` can be added: it builds, its RPC is answered, and its tag is free and unused before. */
  ghost predicate Addable(table: Table, hs: seq<Handler>, ok: Answers, i: nat)
    requires i < |hs|
  {
    && hs[i].builds && ok(i) == Fine
    && (hs[i].tag != "" ==> hs[i].tag !in table.tagged && forall j | 0 <= j < i :: hs[j].tag != hs[i].tag)
  }

  lemma AddOneStops(before: Table, table: Table, hs: seq<Handler>, ok: Answers, i: nat)
    requires i < |hs| && Adding(before, table, hs, i)
    ensures AddOne(table, hs[i], ok(i)).Some? <==> Addable(before, hs, ok, i)
  {
    if hs[i].tag != "" {
      TagTaken(hs, i);
    }
  }

  lemma {:induction false} AddFromStops(before: Table, table: Table, hs: seq<Handler>, ok: Answers, i: nat)
    requires Adding(before, table, hs, i)
    requires forall j | 0 <= j < i :: Addable(before, hs, ok, j)
    ensures var end := AddFrom(table, hs, ok, i);
            && end.count <= |hs| && (end.failed <==> end.count < |hs|)
            && (forall j | 0 <= j < end.count :: Addable(before, hs, ok, j))
            && (end.failed ==> !Addable(before, hs, ok, end.count))
    decreases |hs| - i
  {
    if i < |hs| {
      AddOneStops(before, table, hs, ok, i);
      AddOneExact(before, table, hs, i, ok(i));
      var next := AddOne(table, hs[i], ok(i));
      if next.Some? {
        AddFromStops(before, next.value, hs, ok, i + 1);
      }
    }
  }

  /** An add stops at the first handler that cannot be added, whatever the RPCs answer, and fails if there is one. */
  lemma AddStopsAtFirstObstacle(table: Table, hs: seq<Handler>, ok: Answers)
    ensures var end := AddBatch(table, Some(hs), ok);
            && end.count <= |hs| && (end.failed <==> hs == [] || end.count < |hs|)
            && (forall j | 0 <= j < end.count :: Addable(table, hs, ok, j))
            && (end.count < |hs| ==> !Addable(table, hs, ok, end.count))
  {
    if hs != [] {
      AddFromStops(table, table, hs, ok, 0);
    }
  }

  /** A configuration that cannot be converted fails and changes nothing, and so does one without handlers. */
  lemma UnconvertedChangesNothing(table: Table, converted: Option<seq<Handler>>, ok: Answers)
    requires converted.None? || converted.value == []
    ensures AddBatch(table, converted, ok).failed && AddBatch(table, converted, ok).table == table
    ensures RemoveBatch(table, converted, ok).failed && RemoveBatch(table, converted, ok).table == table
  {
  }

  /** Without faults an add succeeds exactly when there is something to add, everything builds, and every tag is free
      and used once. */
  lemma AddSucceedsIff(table: Table, hs: seq<Handler>, ok: Answers)
    requires forall i :: ok(i) == Fine
    ensures !AddBatch(table, Some(hs), ok).failed
       <==> hs != [] && (forall h | h in hs :: h.builds) && Installable(table, hs)
  {
    if hs != [] {
      AddFromExact(table, table, hs, ok, 0);
      var end := AddBatch(table, Some(hs), ok);
      assert hs[..|hs|] == hs;
      if end.failed && Installable(table, hs) {
        assert hs[end.count] in hs;
        InstallablePrefix(table, hs, end.count + 1);
      }
    }
  }

  lemma {:induction false} RemoveFromExact(before: Table, table: Table, hs: seq<Handler>, ok: Answers, i: nat)
    requires i <= |hs|
    requires forall h | h in hs :: h.tag != ""
    requires table == before.(tagged := before.tagged - Tags(hs[..i]))
    requires Tags(hs[..i]) <= before.tagged.Keys
    ensures var end := RemoveFrom(table, hs, ok, i);
            && i <= end.count <= |hs|
            && end.table == before.(tagged := before.tagged - Tags(hs[..end.count]))
            && (end.failed <==> end.count < |hs|)
            && Tags(hs[..end.count]) <= before.tagged.Keys
            && (end.failed ==> ok(end.count) != Fine || hs[end.count].tag !in before.tagged
                               || hs[end.count].tag in Tags(hs[..end.count]))
    decreases |hs| - i
  {
    if i < |hs| {
      assert hs[i] in hs;
      assert hs[..i + 1] == hs[..i] + [hs[i]];
      assert Tags(hs[..i + 1]) == Tags(hs[..i]) + {hs[i].tag};
      if ok(i) == Fine && hs[i].tag in table.tagged {
        var next := table.(tagged := table.tagged - {hs[i].tag});
        assert next.tagged == before.tagged - Tags(hs[..i + 1]);
        RemoveFromExact(before, next, hs, ok, i + 1);
      }
    }
  }

  /** Handler `i` can be removed: its RPC is answered, its tag is there and was not removed before. */
  ghost predicate Removable(table: Table, hs: seq<Handler>, ok: Answers, i: nat)
    requires i < |hs|
  {
    ok(i) == Fine && hs[i].tag in table.tagged && forall j | 0 <= j < i :: hs[j].tag != hs[i].tag
  }

  lemma {:induction false} RemoveFromStops(before: Table, table: Table, hs: seq<Handler>, ok: Answers, i: nat)
    requires i <= |hs| && forall h | h in hs :: h.tag != ""
    requires table == before.(tagged := before.tagged - Tags(hs[..i]))
    requires forall j | 0 <= j < i :: Removable(before, hs, ok, j)
    ensures var end := RemoveFrom(table, hs, ok, i);
            && end.count <= |hs| && (end.failed <==> end.count < |hs|)
            && (forall j | 0 <= j < end.count :: Removable(before, hs, ok, j))
            && (end.failed ==> !Removable(before, hs, ok, end.count))
    decreases |hs| - i
  {
    if i < |hs| {
      assert hs[i] in hs;
      TagTaken(hs, i);
      if ok(i) == Fine && hs[i].tag in table.tagged {
        TagsOneMore(before, hs, i);
        RemoveFromStops(before, table.(tagged := table.tagged - {hs[i].tag}), hs, ok, i + 1);
      }
    }
  }

  lemma TagTaken(hs: seq<Handler>, i: nat)
    requires i < |hs| && hs[i].tag != ""
    ensures hs[i].tag in Tags(hs[..i]) <==> exists j :: 0 <= j < i && hs[j].tag == hs[i].tag
  {
    if j :| 0 <= j < i && hs[j].tag == hs[i].tag {
      assert hs[..i][j] == hs[j];
    }
  }

  lemma TagsOneMore(before: Table, hs: seq<Handler>, i: nat)
    requires i < |hs| && hs[i].tag != ""
    ensures (before.tagged - Tags(hs[..i])) - {hs[i].tag} == before.tagged - Tags(hs[..i + 1])
  {
    assert hs[..i + 1] == hs[..i] + [hs[i]];
    assert Tags(hs[..i + 1]) == Tags(hs[..i]) + {hs[i].tag};
  }

  /** A remove with no empty tag stops at the first handler that cannot be removed, whatever the RPCs answer, and fails
      if there is one. */
  lemma RemoveStopsAtFirstObstacle(table: Table, hs: seq<Handler>, ok: Answers)
    requires forall h | h in hs :: h.tag != ""
    ensures var end := RemoveBatch(table, Some(hs), ok);
            && end.count <= |hs| && (end.failed <==> hs == [] || end.count < |hs|)
            && (forall j | 0 <= j < end.count :: Removable(table, hs, ok, j))
            && (end.count < |hs| ==> !Removable(table, hs, ok, end.count))
  {
    assert table.tagged - Tags(hs[..0]) == table.tagged;
    if hs != [] {
      RemoveFromStops(table, table, hs, ok, 0);
    }
  }

  /** A remove changes nothing if a tag is empty; otherwise it takes out exactly a prefix of the batch, all of it if and
      only if it does not fail. */
  lemma RemoveTakesPrefix(table: Table, hs: seq<Handler>, ok: Answers)
    ensures var end := RemoveBatch(table, Some(hs), ok);
            && end.count <= |hs|
            && end.table == table.(tagged := table.tagged - Tags(hs[..end.count]))
            && (end.failed <==> hs == [] || end.count < |hs|)
            && ((exists h | h in hs :: h.tag == "") ==> end.failed && end.table == table)
  {
    assert table.tagged - Tags(hs[..0]) == table.tagged;
    if hs != [] && !(exists h | h in hs :: h.tag == "") {
      RemoveFromExact(table, table, hs, ok, 0);
    }
  }

  /** Removing the batch that was just added restores the table, when every handler is tagged - and without faults it
      does not fail. A batch with an untagged handler is never removed at all. */
  lemma AddThenRemove(table: Table, hs: seq<Handler>, addOk: Answers, removeOk: Answers)
    requires !AddBatch(table, Some(hs), addOk).failed
    requires forall i :: removeOk(i) == Fine
    ensures var added := AddBatch(table, Some(hs), addOk).table;
            var end := RemoveBatch(added, Some(hs), removeOk);
            if forall h | h in hs :: h.tag != "" then !end.failed && end.table == table
            else end.failed && end.table == added
  {
    AddFromExact(table, table, hs, addOk, 0);
    assert hs[..|hs|] == hs;
    if forall h | h in hs :: h.tag != "" {
      RemoveAdded(table, AddBatch(table, Some(hs), addOk).table, hs, removeOk);
    }
  }

  lemma RemoveAdded(before: Table, added: Table, hs: seq<Handler>, ok: Answers)
    requires hs != [] && Installable(before, hs) && Installed(before, added, hs)
    requires forall h | h in hs :: h.tag != ""
    requires forall i :: ok(i) == Fine
    ensures var end := RemoveBatch(added, Some(hs), ok);
            !end.failed && end.table == before
  {
    assert added.tagged - Tags(hs[..0]) == added.tagged;
    RemoveFromExact(added, added, hs, ok, 0);
    forall n | 0 <= n < |hs|
      ensures hs[n].tag in added.tagged && hs[n].tag !in Tags(hs[..n])
    {
      assert hs[n] in hs;
      TagIsNew(before, hs, n);
    }
    assert hs[..|hs|] == hs;
    NoneUntagged(hs);
    UninstallAll(before, added, hs);
  }

  lemma TagIsNew(table: Table, hs: seq<Handler>, n: nat)
    requires Installable(table, hs) && n < |hs| && hs[n].tag != ""
    ensures hs[n].tag !in Tags(hs[..n])
  {
  }

  lemma UninstallAll(before: Table, after: Table, hs: seq<Handler>)
    requires Installable(before, hs) && Installed(before, after, hs) && Untagged(hs) == []
    ensures after.(tagged := after.tagged - Tags(hs)) == before
  {
    assert Tags(hs) !! before.tagged.Keys;
    assert (after.tagged - Tags(hs)).Keys == before.tagged.Keys;
    assert after.tagged - Tags(hs) == before.tagged;
  }

  lemma {:induction false} NoneUntagged(hs: seq<Handler>)
    requires forall h | h in hs :: h.tag != ""
    ensures Untagged(hs) == []
  {
    if hs != [] {
      var n := |hs| - 1;
      assert hs[n] in hs && forall h | h in hs[..n] :: h in hs;
      NoneUntagged(hs[..n]);
    }
  }

  // --- applying a client configuration ---

  datatype Server = Server(inbounds: Table, outbounds: Table)

  /** A V2rayClient configuration after conversion. */
  datatype Config = Config(inbounds: seq<Handler>, outbounds: seq<Handler>)

  datatype Applied = Applied(server: Server, failed: bool)

  /** applyV2rayClientConfig: the inbounds, then the outbounds, either left out when there are none. */
  function Apply(server: Server, cfg: Config, inOk: Answers, outOk: Answers): Applied {
    var ins := if cfg.inbounds == [] then Outcome(server.inbounds, 0, false)
        else AddBatch(server.inbounds, Some(cfg.inbounds), inOk);
    if ins.failed then Applied(server.(inbounds := ins.table), true)
    else
      var outs := if cfg.outbounds == [] then Outcome(server.outbounds, 0, false)
          else AddBatch(server.outbounds, Some(cfg.outbounds), outOk);
      Applied(Server(ins.table, outs.table), outs.failed)
  }

  method ApplyClientConfig(inbounds: HandlerService, outbounds: HandlerService, cfg: Config, inOk: Answers,
                           outOk: Answers)
    returns (failed: bool)
    requires inbounds != outbounds
    modifies inbounds, outbounds
    ensures Applied(Server(inbounds.table, outbounds.table), failed) ==
            Apply(Server(old(inbounds.table), old(outbounds.table)), cfg, inOk, outOk)
  {
    if |cfg.inbounds| != 0 {
      failed := inbounds.Add(Some(cfg.inbounds), inOk);
      if failed {
        return;
      }
    }
    if |cfg.outbounds| != 0 {
      failed := outbounds.Add(Some(cfg.outbounds), outOk);
      return;
    }
    return false;
  }

  /** How many handlers of a side an application deals with; a side without handlers is passed over. */
  function Count(table: Table, hs: seq<Handler>, ok: Answers): nat {
    if hs == [] then 0 else AddBatch(table, Some(hs), ok).count
  }

  /** What an application leaves, whatever the RPCs answer: exactly the dealt-with prefix of the inbounds and, only if
      that is all of them, the dealt-with prefix of the outbounds; it fails exactly when something is missing. */
  lemma ApplyLeavesPrefixes(server: Server, cfg: Config, inOk: Answers, outOk: Answers)
    ensures var end := Apply(server, cfg, inOk, outOk);
            var i, j := Count(server.inbounds, cfg.inbounds, inOk), Count(server.outbounds, cfg.outbounds, outOk);
            && i <= |cfg.inbounds| && j <= |cfg.outbounds|
            && Installed(server.inbounds, end.server.inbounds, cfg.inbounds[..i])
            && (if i < |cfg.inbounds| then end.server.outbounds == server.outbounds
                else Installed(server.outbounds, end.server.outbounds, cfg.outbounds[..j]))
            && (end.failed <==> i < |cfg.inbounds| || j < |cfg.outbounds|)
  {
    AddLeavesPrefix(server.inbounds, cfg.inbounds, inOk);
    AddLeavesPrefix(server.outbounds, cfg.outbounds, outOk);
    assert Tags([]) == {};
  }

  predicate Tagged(hs: seq<Handler>) {
    exists h :: h in hs && h.tag != ""
  }

  /** Applying a configuration again after it was applied: without faults it works exactly when no handler has a tag,
      that is, when nothing in the configuration can be told apart. A reconcile pass over an unchanged V2rayClient
      therefore fails on the servers it has already configured. */
  lemma ApplyTwiceIff(server: Server, cfg: Config, inOk: Answers, outOk: Answers, inOk': Answers, outOk': Answers)
    requires !Apply(server, cfg, inOk, outOk).failed
    requires forall i :: inOk'(i) == Fine && outOk'(i) == Fine
    ensures Apply(Apply(server, cfg, inOk, outOk).server, cfg, inOk', outOk').failed
       <==> Tagged(cfg.inbounds) || Tagged(cfg.outbounds)
  {
    var once := Apply(server, cfg, inOk, outOk).server;
    if cfg.inbounds != [] {
      AgainIff(server.inbounds, cfg.inbounds, inOk, inOk');
    }
    if cfg.outbounds != [] {
      AgainIff(server.outbounds, cfg.outbounds, outOk, outOk');
    }
  }

  lemma AgainIff(table: Table, hs: seq<Handler>, ok: Answers, ok': Answers)
    requires !AddBatch(table, Some(hs), ok).failed
    requires forall i :: ok'(i) == Fine
    ensures AddBatch(AddBatch(table, Some(hs), ok).table, Some(hs), ok').failed <==> Tagged(hs)
  {
    AddFromExact(table, table, hs, ok, 0);
    assert hs[..|hs|] == hs;
    var once := AddBatch(table, Some(hs), ok).table;
    AddSucceedsIff(once, hs, ok');
    if Tagged(hs) {
      var h :| h in hs && h.tag != "";
      var i :| 0 <= i < |hs| && hs[i] == h;
      assert hs[i].tag in once.tagged;
    }
  }
}
