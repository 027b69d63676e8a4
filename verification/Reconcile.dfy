/** Regenerating the configuration file and reloading Telegraf (config-watcher/main.go). */
module Reconcile {
  import opened Basics
  import opened Snmp
  import opened DeviceTable
  import opened TelegrafGen
  import S = DeviceStore

  /** The configuration file (None when it does not exist) and the text Telegraf last loaded. */
  datatype Config = Config(file: Option<string>, running: Option<string>)

  /** How the file system and the reload command behave in one pass. A failed write may leave anything in
      the file, or no file at all. */
  datatype Io = Io(readFails: bool, failedWrite: Option<Option<string>>, reloadOk: bool)

  /** What a pass reads besides the table: the interval setting, its parser, and the template (None when
      it does not parse; executing it may fail too). */
  datatype Inputs = Inputs(
    setting: Option<string>, atoi: string -> Option<int>, template: Option<Document -> Option<string>>, target: Target, key: Key)

  /** The text of a pass; None if the pass ends before writing. */
  function Rendering(t: Table, inp: Inputs): Option<string> {
    if inp.setting.None? || inp.atoi(inp.setting.value).None? then None
    else
      match ListByStatus(t, "active")
      case None => None
      case Some(rows) =>
        if inp.template.None? then None
        else
          match DocumentOf(inp.atoi(inp.setting.value).value, inp.target, rows, inp.key)
          case None => None
          case Some(document) => inp.template.value(document)
  }

  /** A pass reloads exactly when it wrote a text that the file did not hold. */
  predicate Reloads(c: Config, text: Option<string>, io: Io) {
    text.Some? && !io.readFails && c.file != text && io.failedWrite.None?
  }

  /** One pass, given what it rendered. */
  function Pass(c: Config, text: Option<string>, io: Io): Config {
    if text.None? || io.readFails || c.file == text then c
    else
      match io.failedWrite
      case Some(left) => c.(file := left)
      case None => Config(text, if io.reloadOk then text else c.running)
  }

  class Watcher {
    var file: Option<string>
    var running: Option<string>

    /** None is an error, otherwise whether a write happened. */
    method WriteIfChanged(content: string, io: Io) returns (changed: Option<bool>)
      modifies this`file
      ensures io.readFails ==> changed == None && file == old(file)
      ensures !io.readFails && old(file) == Some(content) ==> changed == Some(false) && file == old(file)
      ensures !io.readFails && old(file) != Some(content) ==>
                match io.failedWrite
                case Some(left) => changed == None && file == left
                case None => changed == Some(true) && file == Some(content)
    {
      if io.readFails {
        return None;
      }
      if file == Some(content) {
        return Some(false);
      }
      if io.failedWrite.Some? {
        file := io.failedWrite.value;
        return None;
      }
      file := Some(content);
      return Some(true);
    }

    method ReconcileTelegrafConfig(store: S.DeviceStore, inp: Inputs, io: Io) returns (reloaded: bool)
      modifies this
      ensures Config(file, running) == Pass(old(Config(file, running)), Rendering(store.table, inp), io)
      ensures reloaded == Reloads(old(Config(file, running)), Rendering(store.table, inp), io)
    {
      reloaded := false;
      if inp.setting.None? {
        return;
      }
      var interval := inp.atoi(inp.setting.value);
      if interval.None? {
        return;
      }
      var rows := ListByStatus(store.table, "active");
      if rows.None? {
        return;
      }
      if inp.template.None? {
        return;
      }
      var data := BuildDeviceConfigs(rows.value, inp.key);
      if data.None? {
        return;
      }
      var document := DocumentOf(interval.value, inp.target, rows.value, inp.key).value;
      var rendered := inp.template.value(document);
      if rendered.None? {
        return;
      }
      var changed := WriteIfChanged(rendered.value, io);
      if changed.None? || !changed.value {
        return;
      }
      reloaded := true;
      if io.reloadOk {
        running := file;
      }
    }
  }

  // ---------------------------------------------------------------- whole runs

  /** One pass of a run: what it rendered, and how the outside behaved. */
  datatype Event = Event(text: Option<string>, io: Io)

  function Run(c: Config, events: seq<Event>): Config {
    if events == [] then c else Pass(Run(c, events[..|events| - 1]), events[|events| - 1].text, events[|events| - 1].io)
  }

  /** Event i of the run tried to reload Telegraf. */
  predicate ReloadsAt(c: Config, events: seq<Event>, i: nat)
    requires i < |events|
  {
    Reloads(Run(c, events[..i]), events[i].text, events[i].io)
  }

  predicate WriteFailsAt(c: Config, events: seq<Event>, i: nat)
    requires i < |events|
  {
    var before := Run(c, events[..i]);
    events[i].text.Some? && !events[i].io.readFails && before.file != events[i].text && events[i].io.failedWrite.Some?
  }

  /** After a pass that rendered and met no file error, the file is the rendering of the active rows in
      id order with the current interval; a pass that stops before the write changes nothing. */
  lemma FileIsTheRendering(c: Config, t: Table, inp: Inputs, io: Io)
    ensures var text := Rendering(t, inp);
            && (text.Some? && !io.readFails && io.failedWrite.None? ==> Pass(c, text, io).file == text)
            && (text.None? || io.readFails ==> Pass(c, text, io) == c)
    ensures Rendering(t, inp).Some? ==>
              exists interval, document ::
                && DocumentOf(interval, inp.target, WithStatus(t.rows, "active"), inp.key) == Some(document)
                && inp.setting.Some? && inp.atoi(inp.setting.value) == Some(interval)
                && inp.template.Some? && inp.template.value(document) == Rendering(t, inp)
  {
    if Rendering(t, inp).Some? {
      var interval := inp.atoi(inp.setting.value).value;
      var document := DocumentOf(interval, inp.target, WithStatus(t.rows, "active"), inp.key).value;
      assert inp.template.value(document) == Rendering(t, inp);
    }
  }

  /** Everything a pass needs of its inputs to arrive at a text: a setting that reads and parses, active rows that
      all scan, a document that describes them (so that their secrets decrypt), and a template that parses and
      executes on it. */
  ghost predicate Yields(t: Table, inp: Inputs, interval: int, document: Document, text: string) {
    && inp.setting.Some? && inp.atoi(inp.setting.value) == Some(interval)
    && (forall r :: r in t.rows && r.At(Status) == Text("active") ==> Scannable(r))
    && DescribesRows(document, interval, inp.target, WithStatus(t.rows, "active"), inp.key)
    && inp.template.Some? && inp.template.value(document) == Some(text)
  }

  /** When a pass renders, and what: exactly when its inputs yield a text, that text. Nothing else stops it, a
      table without an active device included. */
  lemma {:induction false} RendersIff(t: Table, inp: Inputs, text: string)
    ensures Rendering(t, inp) == Some(text) <==> exists interval, document :: Yields(t, inp, interval, document, text)
  {
    hide Scannable, DescribesRows, DocumentOf;
    ActiveScanIff(t);
    forall interval, document
      ensures DocumentOf(interval, inp.target, WithStatus(t.rows, "active"), inp.key) == Some(document)
         <==> DescribesRows(document, interval, inp.target, WithStatus(t.rows, "active"), inp.key)
    {
      DocumentIff(interval, inp.target, WithStatus(t.rows, "active"), inp.key, document);
    }
    if Rendering(t, inp) == Some(text) {
      var interval := inp.atoi(inp.setting.value).value;
      var document := DocumentOf(interval, inp.target, WithStatus(t.rows, "active"), inp.key).value;
      assert Yields(t, inp, interval, document, text);
    }
  }

  lemma ActiveScanIff(t: Table)
    ensures ListByStatus(t, "active").Some? <==> forall r :: r in t.rows && r.At(Status) == Text("active") ==> Scannable(r)
  {
    hide Scannable;
    WithStatusExact(t.rows, "active");
    var rows := WithStatus(t.rows, "active");
    assert AllScannable(rows) <==> forall r :: r in rows ==> Scannable(r);
  }

  /** When the last active device is gone, a pass still writes and loads the document without sections. */
  lemma NoActiveDeviceIsWritten(c: Config, t: Table, inp: Inputs, io: Io, interval: int, text: string)
    requires forall r :: r in t.rows ==> r.At(Status) != Text("active")
    requires inp.setting.Some? && inp.atoi(inp.setting.value) == Some(interval) && inp.template.Some?
    requires inp.template.value(Document(interval, inp.target.url, inp.target.token, inp.target.database, [])) == Some(text)
    requires c.file != Some(text) && !io.readFails && io.failedWrite.None? && io.reloadOk
    ensures Pass(c, Rendering(t, inp), io) == Config(Some(text), Some(text))
  {
    var document := Document(interval, inp.target.url, inp.target.token, inp.target.database, []);
    NoneWithStatus(t.rows, "active");
    hide WithStatus, Rendering;
    assert Yields(t, inp, interval, document, text);
    RendersIff(t, inp, text);
  }

  /** While no reload and no write has failed, Telegraf runs what the file says. */
  lemma {:induction false} SyncedWhileNothingFails(c: Config, events: seq<Event>)
    requires c.running == c.file
    requires forall i :: 0 <= i < |events| ==> !WriteFailsAt(c, events, i)
    requires forall i :: 0 <= i < |events| ==> ReloadsAt(c, events, i) ==> events[i].io.reloadOk
    ensures Run(c, events).running == Run(c, events).file
  {
    if events != [] {
      var n := |events| - 1;
      var front := events[..n];
      forall i | 0 <= i < n
        ensures !WriteFailsAt(c, front, i) && (ReloadsAt(c, front, i) ==> front[i].io.reloadOk)
      {
        assert front[..i] == events[..i];
        assert !WriteFailsAt(c, events, i);
        assert ReloadsAt(c, events, i) ==> events[i].io.reloadOk;
      }
      SyncedWhileNothingFails(c, front);
      assert !WriteFailsAt(c, events, n);
      assert ReloadsAt(c, events, n) ==> events[n].io.reloadOk;
    }
  }

  predicate Reloaded(c: Config, events: seq<Event>, i: nat)
    requires i < |events|
  {
    ReloadsAt(c, events, i) && events[i].io.reloadOk
  }

  lemma ReloadedInPrefix(c: Config, events: seq<Event>, n: nat, i: nat)
    requires i < n <= |events|
    ensures Reloaded(c, events[..n], i) == Reloaded(c, events, i)
  {
    assert events[..n][..i] == events[..i];
  }

  /** Without a successful reload Telegraf keeps running what it ran before. */
  lemma {:induction false} RunningUnchangedWithoutReload(c: Config, events: seq<Event>, from: nat)
    requires from <= |events| && forall j :: from <= j < |events| ==> !Reloaded(c, events, j)
    ensures Run(c, events).running == Run(c, events[..from]).running
    decreases |events|
  {
    if from == |events| {
      assert events[..from] == events;
    } else {
      var n := |events| - 1;
      forall j | from <= j < n ensures !Reloaded(c, events[..n], j) {
        ReloadedInPrefix(c, events, n, j);
      }
      assert events[..n][..from] == events[..from];
      RunningUnchangedWithoutReload(c, events[..n], from);
      assert !Reloaded(c, events, n);
    }
  }

  /** Whatever fails along the way, Telegraf runs the text of the last successful reload. */
  lemma RunningIsLastReloaded(c: Config, events: seq<Event>, k: nat)
    requires k < |events| && Reloaded(c, events, k)
    requires forall j :: k < j < |events| ==> !Reloaded(c, events, j)
    ensures Run(c, events).running == events[k].text
  {
    RunningUnchangedWithoutReload(c, events, k + 1);
    assert events[..k + 1][..k] == events[..k];
  }

  /** After a failed reload nothing is retried: as long as every pass renders the text already in the file,
      or fails before writing, the file and the running configuration both stay as they are. */
  lemma {:induction false} StaleUntilTextChanges(c: Config, events: seq<Event>)
    requires forall i :: 0 <= i < |events| ==> events[i].text.None? || events[i].io.readFails || events[i].text == c.file
    ensures Run(c, events) == c
  {
    if events != [] {
      StaleUntilTextChanges(c, events[..|events| - 1]);
    }
  }

  /** Hence a stale configuration is put right only by a pass that renders a different text. */
  lemma FailedReloadNeedsNewText(c: Config, text: string, events: seq<Event>)
    requires c.file == Some(text) && c.running != c.file
    requires Run(c, events).running == Run(c, events).file
    ensures exists i :: 0 <= i < |events| && events[i].text.Some? && events[i].text != Some(text)
  {
    if forall i :: 0 <= i < |events| ==> events[i].text.None? || events[i].text == Some(text) {
      StaleUntilTextChanges(c, events);
    }
  }

  /** And such a pass does put it right, if it can read, write and reload. */
  lemma NewTextRepairs(c: Config, text: string, io: Io)
    requires c.file != Some(text) && !io.readFails && io.failedWrite.None? && io.reloadOk
    ensures Reloads(c, Some(text), io)
    ensures Pass(c, Some(text), io) == Config(Some(text), Some(text))
  {
  }

  /** A pass that renders this text and meets no failure. */
  predicate Flawless(e: Event, text: string) {
    e.text == Some(text) && !e.io.readFails && e.io.failedWrite.None? && e.io.reloadOk
  }

  /** A failed write can strand a change. However many flawless passes with the same text follow it, Telegraf
      gets to run the text exactly if the failed write did not leave it complete in the file (or if Telegraf
      ran it all along): a complete text looks like nothing to do. */
  lemma {:induction false} FailedWriteRepairedIff(c: Config, text: string, io: Io, events: seq<Event>)
    requires c.file != Some(text) && !io.readFails && io.failedWrite.Some?
    requires events != [] && forall i :: 0 <= i < |events| ==> Flawless(events[i], text)
    ensures var after := Run(Pass(c, Some(text), io), events);
            && after.file == Some(text)
            && (after.running == Some(text) <==> io.failedWrite.value != Some(text) || c.running == Some(text))
  {
    var n := |events| - 1;
    if n == 0 {
      assert events[..0] == [];
    } else {
      FailedWriteRepairedIff(c, text, io, events[..n]);
    }
  }
}
