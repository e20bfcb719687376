/**
  The body of `main` that brings a guild's channel names in line with a
  theme. The guild is abstract: a map from channel id to the channel's
  current name and whether the bot may manage it, plus an edit operation
  that a fixed set of channels rejects. Logging is reduced to one outcome
  tag per theme entry.
 */
module Reconcile {
  import opened Wrappers
  import opened OrderedDict

  /** A channel as the loop sees it: its name and whether `manage_channels` holds for the bot there. */
  datatype Channel = Channel(name: string, canManage: bool)

  /** One call of `channel.edit(name=..., reason=...)`. */
  datatype EditRequest = EditRequest(id: nat, name: string, reason: Option<string>)

  /** What the loop logged or recorded for one theme entry. */
  datatype Outcome =
    | NotFound(id: nat, name: string)
    | SameName(id: nat, name: string)
    | NoPermission(id: nat, name: string)
    | Updated(id: nat, oldName: string, newName: string)
    | EditFailed(id: nat, name: string)

  /** The guild: its channels, the ids whose edit raises, and every edit call made so far. */
  class Guild {
    var channels: map<nat, Channel>
    const failing: set<nat>
    var edits: seq<EditRequest>

    constructor (channels: map<nat, Channel>, failing: set<nat>)
      ensures this.channels == channels && this.failing == failing && edits == []
    {
      this.channels := channels;
      this.failing := failing;
      edits := [];
    }

    /** `get_channel_or_thread`. */
    function Lookup(id: nat): (c: Option<Channel>)
      reads this
      ensures c.Some? <==> id in channels
      ensures c.Some? ==> c.value == channels[id]
    {
      if id in channels then Some(channels[id]) else None
    }

    /** `channel.edit`: the call is made; it renames the channel unless the server rejects it. */
    method Edit(id: nat, name: string, reason: Option<string>) returns (ok: bool)
      requires id in channels
      modifies this
      ensures edits == old(edits) + [EditRequest(id, name, reason)]
      ensures ok <==> id !in failing
      ensures channels == if ok then old(channels)[id := old(channels)[id].(name := name)] else old(channels)
    {
      edits := edits + [EditRequest(id, name, reason)];
      ok := id !in failing;
      if ok {
        channels := channels[id := channels[id].(name := name)];
      }
    }
  }

  /**
    The checks made before an edit, in the loop's order: missing, same name,
    no permission. Only a channel that passes all three is edited, and a
    channel already carrying the target name is skipped as such even when
    the bot could not manage it.
   */
  function Check(channels: map<nat, Channel>, id: nat, name: string): (o: Outcome)
    ensures o.id == id
    ensures o.Updated? <==> Eligible(channels, id, name)
    ensures o.Updated? ==> o == Updated(id, channels[id].name, name)
    ensures o.NotFound? <==> id !in channels
    ensures id in channels && channels[id].name == name ==> o == SameName(id, name)
    ensures o.NoPermission? <==> id in channels && channels[id].name != name && !channels[id].canManage
    ensures !o.EditFailed?
  {
    if id !in channels then NotFound(id, name)
    else if channels[id].name == name then SameName(id, name)
    else if !channels[id].canManage then NoPermission(id, name)
    else Updated(id, channels[id].name, name)
  }

  /** Everything the loop changes: the guild's channels and edit calls, `channel_updates` and the log. */
  datatype State = State(channels: map<nat, Channel>, edits: seq<EditRequest>, updates: seq<(string, string)>, log: seq<Outcome>)

  /**
    One turn of the loop, for the theme entry `item`: an entry that passes the
    checks is recorded in dry-run mode, and otherwise edited and recorded
    only if the edit goes through.
   */
  function Step(s: State, failing: set<nat>, dryRun: bool, reason: Option<string>, item: Item): State
  {
    var o := Check(s.channels, item.key, item.value);
    var tried := o.Updated? && !dryRun;
    var recorded := o.Updated? && (dryRun || item.key !in failing);
    State(
      if tried && recorded then s.channels[item.key := s.channels[item.key].(name := item.value)] else s.channels,
      if tried then s.edits + [EditRequest(item.key, item.value, reason)] else s.edits,
      if recorded then s.updates + [(o.oldName, o.newName)] else s.updates,
      s.log + [if o.Updated? && !recorded then EditFailed(item.key, item.value) else o])
  }

  /** The whole loop over the theme, in the theme's order. Each entry logs exactly one outcome. */
  function Run(s: State, failing: set<nat>, dryRun: bool, reason: Option<string>, theme: Dict): (r: State)
    ensures |r.log| == |s.log| + |theme| && r.log[..|s.log|] == s.log
    decreases |theme|
  {
    if theme == [] then s
    else
      var r := Run(Step(s, failing, dryRun, reason, theme[0]), failing, dryRun, reason, theme[1..]);
      assert r.log[..|s.log|] == r.log[..|s.log| + 1][..|s.log|];
      r
  }

  /** The main loop: every theme entry is checked against the guild and edited unless in dry-run mode. */
  method Reconcile(guild: Guild, theme: Dict, dryRun: bool, reason: Option<string>)
    returns (channelUpdates: seq<(string, string)>, log: seq<Outcome>)
    modifies guild
    ensures var r := Run(State(old(guild.channels), old(guild.edits), [], []), guild.failing, dryRun, reason, theme);
      guild.channels == r.channels && guild.edits == r.edits && channelUpdates == r.updates && log == r.log
  {
    channelUpdates := [];
    log := [];
    for i := 0 to |theme|
      invariant Run(State(old(guild.channels), old(guild.edits), [], []), guild.failing, dryRun, reason, theme)
        == Run(State(guild.channels, guild.edits, channelUpdates, log), guild.failing, dryRun, reason, theme[i..])
    {
      assert theme[i..][0] == theme[i] && theme[i..][1..] == theme[i + 1..];
      var channelId := theme[i].key;
      var name := theme[i].value;
      var channel := guild.Lookup(channelId);
      if channel.None? {
        log := log + [NotFound(channelId, name)];
        continue;
      } else if channel.value.name == name {
        log := log + [SameName(channelId, name)];
        continue;
      } else if !channel.value.canManage {
        log := log + [NoPermission(channelId, name)];
        continue;
      }
      var update := (channel.value.name, name);
      if !dryRun {
        var ok := guild.Edit(channelId, name, reason);
        if !ok {
          log := log + [EditFailed(channelId, name)];
          continue;
        }
      }
      channelUpdates := channelUpdates + [update];
      log := log + [Updated(channelId, update.0, update.1)];
    }
    assert theme[|theme|..] == [];
  }

  // ----- Reference definitions -----

  /** A channel the loop would try to rename: present, differently named, and manageable. */
  predicate Eligible(channels: map<nat, Channel>, id: nat, name: string)
  {
    id in channels && channels[id].name != name && channels[id].canManage
  }

  /** The outcome of one entry judged against the channels as they were before the loop. */
  function Expected(channels: map<nat, Channel>, failing: set<nat>, dryRun: bool, item: Item): Outcome
  {
    if item.key !in channels then NotFound(item.key, item.value)
    else if channels[item.key].name == item.value then SameName(item.key, item.value)
    else if !channels[item.key].canManage then NoPermission(item.key, item.value)
    else if !dryRun && item.key in failing then EditFailed(item.key, item.value)
    else Updated(item.key, channels[item.key].name, item.value)
  }

  function ExpectedAll(channels: map<nat, Channel>, failing: set<nat>, dryRun: bool, theme: Dict): (log: seq<Outcome>)
    ensures |log| == |theme|
    decreases |theme|
  {
    if theme == [] then []
    else [Expected(channels, failing, dryRun, theme[0])] + ExpectedAll(channels, failing, dryRun, theme[1..])
  }

  lemma {:induction false} ExpectedAllAt(channels: map<nat, Channel>, failing: set<nat>, dryRun: bool, theme: Dict, i: nat)
    requires i < |theme|
    ensures ExpectedAll(channels, failing, dryRun, theme)[i] == Expected(channels, failing, dryRun, theme[i])
    decreases i
  {
    if i > 0 {
      ExpectedAllAt(channels, failing, dryRun, theme[1..], i - 1);
    }
  }

  /** The `(old, new)` pairs of the `Updated` outcomes of a log, in order. */
  function Recorded(log: seq<Outcome>): seq<(string, string)>
  {
    if log == [] then []
    else
      var o := log[|log| - 1];
      Recorded(log[..|log| - 1]) + if o.Updated? then [(o.oldName, o.newName)] else []
  }

  /** The edit calls behind the `Updated` and `EditFailed` outcomes of a log, in order. */
  function Attempts(log: seq<Outcome>, reason: Option<string>): seq<EditRequest>
  {
    if log == [] then []
    else
      var o := log[|log| - 1];
      Attempts(log[..|log| - 1], reason) +
        if o.Updated? then [EditRequest(o.id, o.newName, reason)]
        else if o.EditFailed? then [EditRequest(o.id, o.name, reason)]
        else []
  }

  // ----- Lemmas -----

  /** The reference outcome of an entry is the loop's checks, with a rejected edit turning `Updated` into `EditFailed`. */
  lemma ExpectedFromCheck(channels: map<nat, Channel>, failing: set<nat>, dryRun: bool, item: Item)
    ensures var o := Check(channels, item.key, item.value);
      Expected(channels, failing, dryRun, item) ==
        if o.Updated? && !dryRun && item.key in failing then EditFailed(item.key, item.value) else o
  {
  }

  /** An entry whose channel is skipped or whose edit fails changes nothing but the log (and the edit calls on failure). */
  lemma StepEffects(s: State, failing: set<nat>, dryRun: bool, reason: Option<string>, item: Item)
    ensures var t := Step(s, failing, dryRun, reason, item);
      t.log == s.log + [Expected(s.channels, failing, dryRun, item)] &&
      (!Eligible(s.channels, item.key, item.value) ==> t.channels == s.channels && t.edits == s.edits && t.updates == s.updates) &&
      (dryRun ==> t.channels == s.channels && t.edits == s.edits) &&
      (!dryRun && item.key in failing ==> t.channels == s.channels && t.updates == s.updates) &&
      t.channels.Keys == s.channels.Keys &&
      (item.key in s.channels ==> t.channels[item.key] == if !dryRun && Expected(s.channels, failing, dryRun, item).Updated?
        then s.channels[item.key].(name := item.value) else s.channels[item.key]) &&
      (forall id | id in s.channels && id != item.key :: t.channels[id] == s.channels[id])
  {
  }

  /** `channel_updates` holds exactly the `(old, new)` pairs of the `Updated` outcomes, in theme order. */
  lemma {:induction false} RunRecords(s: State, failing: set<nat>, dryRun: bool, reason: Option<string>, theme: Dict)
    requires s.updates == Recorded(s.log)
    ensures var r := Run(s, failing, dryRun, reason, theme); r.updates == Recorded(r.log)
    decreases |theme|
  {
    if theme != [] {
      var t := Step(s, failing, dryRun, reason, theme[0]);
      assert t.log[..|t.log| - 1] == s.log;
      RunRecords(t, failing, dryRun, reason, theme[1..]);
    }
  }

  /**
    Outside dry-run mode an edit call is made exactly for each `Updated` or
    `EditFailed` outcome, in order; in dry-run mode none is made.
   */
  lemma {:induction false} RunEdits(s: State, before: seq<EditRequest>, failing: set<nat>, dryRun: bool, reason: Option<string>, theme: Dict)
    requires s.edits == before + if dryRun then [] else Attempts(s.log, reason)
    ensures var r := Run(s, failing, dryRun, reason, theme);
      r.edits == before + if dryRun then [] else Attempts(r.log, reason)
    decreases |theme|
  {
    if theme != [] {
      var t := Step(s, failing, dryRun, reason, theme[0]);
      assert t.log[..|t.log| - 1] == s.log;
      RunEdits(t, before, failing, dryRun, reason, theme[1..]);
    }
  }

  /** Dry-run mode neither renames a channel nor calls `edit`. */
  lemma {:induction false} DryRunLeavesGuild(s: State, failing: set<nat>, reason: Option<string>, theme: Dict)
    ensures Run(s, failing, true, reason, theme).channels == s.channels
    ensures Run(s, failing, true, reason, theme).edits == s.edits
    decreases |theme|
  {
    if theme != [] {
      DryRunLeavesGuild(Step(s, failing, true, reason, theme[0]), failing, reason, theme[1..]);
    }
  }

  /** Outcomes only depend on the channels the theme names. */
  lemma {:induction false} ExpectedAllFrame(c: map<nat, Channel>, c': map<nat, Channel>, failing: set<nat>, dryRun: bool, theme: Dict)
    requires forall i | 0 <= i < |theme| :: (theme[i].key in c <==> theme[i].key in c')
    requires forall i | 0 <= i < |theme| && theme[i].key in c :: c[theme[i].key] == c'[theme[i].key]
    ensures ExpectedAll(c, failing, dryRun, theme) == ExpectedAll(c', failing, dryRun, theme)
    decreases |theme|
  {
    if theme != [] {
      ExpectedAllFrame(c, c', failing, dryRun, theme[1..]);
    }
  }

  /**
    Since a theme names each channel once, every entry is judged against the
    channels as they were before the loop: a failed edit or a rename affects
    only its own entry, and later entries are still processed.
   */
  lemma {:induction false} RunLog(s: State, failing: set<nat>, dryRun: bool, reason: Option<string>, theme: Dict)
    requires Distinct(theme)
    ensures Run(s, failing, dryRun, reason, theme).log == s.log + ExpectedAll(s.channels, failing, dryRun, theme)
    decreases |theme|
  {
    if theme != [] {
      var t := Step(s, failing, dryRun, reason, theme[0]);
      var rest := theme[1..];
      DistinctParts(theme);
      RunLog(t, failing, dryRun, reason, rest);
      StepEffects(s, failing, dryRun, reason, theme[0]);
      StepFrame(s, failing, dryRun, reason, theme[0], rest);
      assert ExpectedAll(s.channels, failing, dryRun, theme)
        == [Expected(s.channels, failing, dryRun, theme[0])] + ExpectedAll(s.channels, failing, dryRun, rest);
    }
  }

  /** The entries after the one a step handles are judged the same before and after that step. */
  lemma StepFrame(s: State, failing: set<nat>, dryRun: bool, reason: Option<string>, item: Item, rest: Dict)
    requires item.key !in Keys(rest)
    ensures ExpectedAll(Step(s, failing, dryRun, reason, item).channels, failing, dryRun, rest)
      == ExpectedAll(s.channels, failing, dryRun, rest)
  {
    StepEffects(s, failing, dryRun, reason, item);
    forall i | 0 <= i < |rest|
      ensures rest[i].key != item.key
    {
      assert Keys(rest)[i] == rest[i].key;
    }
    ExpectedAllFrame(Step(s, failing, dryRun, reason, item).channels, s.channels, failing, dryRun, rest);
  }

  /**
    Where the channels end up: a channel the theme names is renamed to its
    target exactly when its entry comes out `Updated` outside dry-run mode;
    every other channel keeps its name, and no channel appears or disappears.
   */
  lemma {:induction false} RunChannels(s: State, failing: set<nat>, dryRun: bool, reason: Option<string>, theme: Dict)
    requires Distinct(theme)
    ensures var r := Run(s, failing, dryRun, reason, theme).channels;
      r.Keys == s.channels.Keys &&
      (forall i | 0 <= i < |theme| && theme[i].key in s.channels ::
        r[theme[i].key] == if !dryRun && Expected(s.channels, failing, dryRun, theme[i]).Updated?
          then s.channels[theme[i].key].(name := theme[i].value) else s.channels[theme[i].key]) &&
      (forall id | id in s.channels && id !in Keys(theme) :: r[id] == s.channels[id])
    decreases |theme|
  {
    RunOthers(s, failing, dryRun, reason, theme);
    if theme != [] {
      var k := theme[0].key;
      var t := Step(s, failing, dryRun, reason, theme[0]);
      var rest := theme[1..];
      var r := Run(s, failing, dryRun, reason, theme).channels;
      assert r == Run(t, failing, dryRun, reason, rest).channels;
      DistinctParts(theme);
      RunChannels(t, failing, dryRun, reason, rest);
      RunOthers(t, failing, dryRun, reason, rest);
      StepEffects(s, failing, dryRun, reason, theme[0]);
      forall i | 0 <= i < |theme| && theme[i].key in s.channels
        ensures r[theme[i].key] == if !dryRun && Expected(s.channels, failing, dryRun, theme[i]).Updated?
          then s.channels[theme[i].key].(name := theme[i].value) else s.channels[theme[i].key]
      {
        EntryAfterStep(s.channels, t.channels, r, failing, dryRun, theme, i);
      }
    }
  }

  /** The inductive step of `RunChannels` for one entry, on the maps before and after the first step and at the end. */
  lemma EntryAfterStep(c: map<nat, Channel>, t: map<nat, Channel>, r: map<nat, Channel>, failing: set<nat>, dryRun: bool, theme: Dict, i: nat)
    requires 0 <= i < |theme| && theme[i].key in c
    requires t.Keys == c.Keys && r.Keys == t.Keys && theme[0].key !in Keys(theme[1..])
    requires theme[0].key in c ==> t[theme[0].key] == if !dryRun && Expected(c, failing, dryRun, theme[0]).Updated?
      then c[theme[0].key].(name := theme[0].value) else c[theme[0].key]
    requires forall id | id in c && id != theme[0].key :: t[id] == c[id]
    requires forall j | 0 <= j < |theme[1..]| && theme[1..][j].key in t ::
      r[theme[1..][j].key] == if !dryRun && Expected(t, failing, dryRun, theme[1..][j]).Updated?
        then t[theme[1..][j].key].(name := theme[1..][j].value) else t[theme[1..][j].key]
    requires forall id | id in t && id !in Keys(theme[1..]) :: r[id] == t[id]
    ensures r[theme[i].key] == if !dryRun && Expected(c, failing, dryRun, theme[i]).Updated?
      then c[theme[i].key].(name := theme[i].value) else c[theme[i].key]
  {
    var rest := theme[1..];
    if i > 0 {
      assert theme[i] == rest[i - 1];
      assert Keys(rest)[i - 1] == rest[i - 1].key;
    }
  }

  /** A loop over the theme renames no channel the theme does not name, and adds or drops none. */
  lemma {:induction false} RunOthers(s: State, failing: set<nat>, dryRun: bool, reason: Option<string>, theme: Dict)
    ensures var r := Run(s, failing, dryRun, reason, theme).channels;
      r.Keys == s.channels.Keys &&
      (forall id | id in s.channels && id !in Keys(theme) :: r[id] == s.channels[id])
    decreases |theme|
  {
    if theme != [] {
      var rest := theme[1..];
      RunOthers(Step(s, failing, dryRun, reason, theme[0]), failing, dryRun, reason, rest);
      StepEffects(s, failing, dryRun, reason, theme[0]);
      KeysCons(theme[0], rest);
      assert theme == [theme[0]] + rest;
    }
  }

  /**
    One entry on the second run, against the channels the first run left
    behind. Each run has its own set of rejected edits: a rejection may be
    transient. A renamed channel now carries its target name, an entry skipped
    by the checks is skipped again the same way, and only an entry whose edit
    failed is tried again.
   */
  lemma RerunEntry(c: map<nat, Channel>, c': map<nat, Channel>, f1: set<nat>, f2: set<nat>, item: Item)
    requires item.key in c <==> item.key in c'
    requires item.key in c ==> (c'[item.key] ==
      if Expected(c, f1, false, item).Updated? then c[item.key].(name := item.value) else c[item.key])
    ensures var o1 := Expected(c, f1, false, item); var o2 := Expected(c', f2, false, item);
      (o1.Updated? ==> o2 == SameName(item.key, item.value)) &&
      (o1.EditFailed? ==> (o2.Updated? <==> item.key !in f2) && (o2.EditFailed? <==> item.key in f2)) &&
      (!o1.Updated? && !o1.EditFailed? ==> o2 == o1)
  {
  }

  /** Every edit call behind a log goes back to an `Updated` or `EditFailed` outcome with its id and name. */
  lemma {:induction false} AttemptsFrom(log: seq<Outcome>, reason: Option<string>, e: EditRequest)
    requires e in Attempts(log, reason)
    ensures exists i | 0 <= i < |log| ::
      (log[i] == EditFailed(e.id, e.name) || (log[i].Updated? && log[i].id == e.id && log[i].newName == e.name))
  {
    var init := log[..|log| - 1];
    if e in Attempts(init, reason) {
      AttemptsFrom(init, reason, e);
      var i :| 0 <= i < |init| && (init[i] == EditFailed(e.id, e.name) ||
        (init[i].Updated? && init[i].id == e.id && init[i].newName == e.name));
      assert log[i] == init[i];
    } else {
      assert 0 <= |log| - 1 < |log|;
    }
  }

  /**
    Running the loop a second time right after a run outside dry-run mode,
    where each run has its own set of rejected edits: every entry the first
    run renamed now comes out `SameName`; the second run calls `edit`, and
    records an update, only for the entries whose first-run edit failed, and
    it does retry each of those.
   */
  lemma RerunOnlyRetries(channels: map<nat, Channel>, edits: seq<EditRequest>, f1: set<nat>, f2: set<nat>, reason: Option<string>, theme: Dict)
    requires Distinct(theme)
    ensures var first := Run(State(channels, edits, [], []), f1, false, reason, theme);
      var second := Run(State(first.channels, first.edits, [], []), f2, false, reason, theme);
      (forall i | 0 <= i < |theme| && first.log[i].Updated? :: second.log[i] == SameName(theme[i].key, theme[i].value)) &&
      (forall i | 0 <= i < |theme| ::
        (second.log[i].Updated? || second.log[i].EditFailed?) <==> first.log[i].EditFailed?) &&
      |first.edits| <= |second.edits| &&
      (forall e | e in second.edits[|first.edits|..] ::
        e.reason == reason && exists i | 0 <= i < |theme| :: first.log[i] == EditFailed(e.id, e.name))
  {
    var s1 := State(channels, edits, [], []);
    var first := Run(s1, f1, false, reason, theme);
    var s2 := State(first.channels, first.edits, [], []);
    var second := Run(s2, f2, false, reason, theme);
    RunChannels(s1, f1, false, reason, theme);
    RunLog(s1, f1, false, reason, theme);
    RunLog(s2, f2, false, reason, theme);
    RunEdits(s2, first.edits, f2, false, reason, theme);
    RerunLogs(channels, first.channels, f1, f2, theme);
    RetriedEdits(first.log, second.log, reason, theme);
    assert second.edits[|first.edits|..] == Attempts(second.log, reason);
  }

  /** `RerunOnlyRetries` entry by entry, on the two logs as reference definitions. */
  lemma RerunLogs(c: map<nat, Channel>, c': map<nat, Channel>, f1: set<nat>, f2: set<nat>, theme: Dict)
    requires c'.Keys == c.Keys
    requires forall i | 0 <= i < |theme| && theme[i].key in c ::
      c'[theme[i].key] == if Expected(c, f1, false, theme[i]).Updated? then c[theme[i].key].(name := theme[i].value) else c[theme[i].key]
    ensures var log1 := ExpectedAll(c, f1, false, theme); var log2 := ExpectedAll(c', f2, false, theme);
      forall i | 0 <= i < |theme| ::
        (log1[i].Updated? ==> log2[i] == SameName(theme[i].key, theme[i].value)) &&
        ((log2[i].Updated? || log2[i].EditFailed?) <==> log1[i].EditFailed?) &&
        (log1[i].EditFailed? ==> log1[i] == EditFailed(theme[i].key, theme[i].value)) &&
        (log2[i].EditFailed? ==> log2[i] == EditFailed(theme[i].key, theme[i].value)) &&
        (log2[i].Updated? ==> log2[i].id == theme[i].key && log2[i].newName == theme[i].value)
  {
    forall i | 0 <= i < |theme|
      ensures var log1 := ExpectedAll(c, f1, false, theme); var log2 := ExpectedAll(c', f2, false, theme);
        (log1[i].Updated? ==> log2[i] == SameName(theme[i].key, theme[i].value)) &&
        ((log2[i].Updated? || log2[i].EditFailed?) <==> log1[i].EditFailed?) &&
        (log1[i].EditFailed? ==> log1[i] == EditFailed(theme[i].key, theme[i].value)) &&
        (log2[i].EditFailed? ==> log2[i] == EditFailed(theme[i].key, theme[i].value)) &&
        (log2[i].Updated? ==> log2[i].id == theme[i].key && log2[i].newName == theme[i].value)
    {
      ExpectedAllAt(c, f1, false, theme, i);
      ExpectedAllAt(c', f2, false, theme, i);
      RerunEntry(c, c', f1, f2, theme[i]);
    }
  }

  /** The edit calls of the second run go back to the entries whose edit failed on the first. */
  lemma RetriedEdits(log1: seq<Outcome>, log2: seq<Outcome>, reason: Option<string>, theme: Dict)
    requires |log1| == |log2| == |theme|
    requires forall i | 0 <= i < |theme| ::
        ((log2[i].Updated? || log2[i].EditFailed?) ==> log1[i].EditFailed?) &&
        (log1[i].EditFailed? ==> log1[i] == EditFailed(theme[i].key, theme[i].value)) &&
        (log2[i].EditFailed? ==> log2[i] == EditFailed(theme[i].key, theme[i].value)) &&
        (log2[i].Updated? ==> log2[i].id == theme[i].key && log2[i].newName == theme[i].value)
    ensures forall e | e in Attempts(log2, reason) ::
      e.reason == reason && exists i | 0 <= i < |theme| :: log1[i] == EditFailed(e.id, e.name)
  {
    forall e | e in Attempts(log2, reason)
      ensures e.reason == reason && exists i | 0 <= i < |theme| :: log1[i] == EditFailed(e.id, e.name)
    {
      AttemptsReason(log2, reason, e);
      AttemptsFrom(log2, reason, e);
      var i :| 0 <= i < |log2| &&
        (log2[i] == EditFailed(e.id, e.name) || (log2[i].Updated? && log2[i].id == e.id && log2[i].newName == e.name));
      assert log1[i] == EditFailed(e.id, e.name);
    }
  }

  /** Every edit call behind a log carries the run's reason. */
  lemma {:induction false} AttemptsReason(log: seq<Outcome>, reason: Option<string>, e: EditRequest)
    requires e in Attempts(log, reason)
    ensures e.reason == reason
  {
    if e in Attempts(log[..|log| - 1], reason) {
      AttemptsReason(log[..|log| - 1], reason, e);
    }
  }

  /**
    After a run outside dry-run mode in which no edit failed, a second run
    records no update and calls `edit` for nothing, whatever the server would
    reject this time.
   */
  lemma RerunAfterCleanRun(channels: map<nat, Channel>, edits: seq<EditRequest>, f1: set<nat>, f2: set<nat>, reason: Option<string>, theme: Dict)
    requires Distinct(theme)
    ensures var first := Run(State(channels, edits, [], []), f1, false, reason, theme);
      var second := Run(State(first.channels, first.edits, [], []), f2, false, reason, theme);
      (forall i | 0 <= i < |first.log| :: !first.log[i].EditFailed?) ==>
        second.updates == [] && second.edits == first.edits
  {
    var s1 := State(channels, edits, [], []);
    var first := Run(s1, f1, false, reason, theme);
    var s2 := State(first.channels, first.edits, [], []);
    var second := Run(s2, f2, false, reason, theme);
    RunChannels(s1, f1, false, reason, theme);
    RunLog(s1, f1, false, reason, theme);
    RunLog(s2, f2, false, reason, theme);
    RunRecords(s2, f2, false, reason, theme);
    RunEdits(s2, first.edits, f2, false, reason, theme);
    if forall i | 0 <= i < |first.log| :: !first.log[i].EditFailed? {
      CleanRerunLog(channels, first.channels, f1, f2, reason, theme);
    }
  }

  /** `RerunAfterCleanRun` on the two logs as reference definitions. */
  lemma CleanRerunLog(c: map<nat, Channel>, c': map<nat, Channel>, f1: set<nat>, f2: set<nat>, reason: Option<string>, theme: Dict)
    requires c'.Keys == c.Keys
    requires forall i | 0 <= i < |theme| && theme[i].key in c ::
      c'[theme[i].key] == if Expected(c, f1, false, theme[i]).Updated? then c[theme[i].key].(name := theme[i].value) else c[theme[i].key]
    requires forall i | 0 <= i < |theme| :: !ExpectedAll(c, f1, false, theme)[i].EditFailed?
    ensures Recorded(ExpectedAll(c', f2, false, theme)) == [] && Attempts(ExpectedAll(c', f2, false, theme), reason) == []
  {
    var log1 := ExpectedAll(c, f1, false, theme);
    var log2 := ExpectedAll(c', f2, false, theme);
    RerunLogs(c, c', f1, f2, theme);
    forall i | 0 <= i < |log2|
      ensures !log2[i].Updated? && !log2[i].EditFailed?
    {
      assert !log1[i].EditFailed?;
    }
    NoUpdatesRecorded(log2);
    NoAttempts(log2, reason);
  }

  lemma {:induction false} NoUpdatesRecorded(log: seq<Outcome>)
    requires forall i | 0 <= i < |log| :: !log[i].Updated?
    ensures Recorded(log) == []
  {
    if log != [] {
      NoUpdatesRecorded(log[..|log| - 1]);
    }
  }

  lemma {:induction false} NoAttempts(log: seq<Outcome>, reason: Option<string>)
    requires forall i | 0 <= i < |log| :: !log[i].Updated? && !log[i].EditFailed?
    ensures Attempts(log, reason) == []
  {
    if log != [] {
      NoAttempts(log[..|log| - 1], reason);
    }
  }
}
