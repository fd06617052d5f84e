/** Copies of a datastore and their originals: what is written to one of them
    does not show in the other, although they hold the same list objects. */
module CopyIsolation {
  import opened Wrappers
  import opened Updates
  import opened WriteFailures
  import opened Sticky
  import opened Datastore

  /** e is another store, and does not stand on the top layer of d. */
  ghost predicate Apart(d: DataSmart, e: DataSmart) {
    d != e && d.dict !in e.dict.chain
  }

  /** One write, and its effect on d. */
  method Perform(d: DataSmart, w: Write, depth: nat) returns (r: Result<(), Error>, ghost active: seq<string>)
    requires d.Valid() && !d.inOverride && (w.SetFlag? ==> IsTextFlag(w.flag))
    modifies d, d.dict
    ensures r.Ok? ==> d.Valid() && !d.inOverride && d.Now() == Apply(old(d.Now()), w, active)
    ensures r.Err? ==> WriteStops(old(d.Now()), w, old(d.overrides), active, old(d.overrideVars), depth)
  {
    active := [];
    match w {
      case Assign(name, value, parsing) =>
        ghost var filled;
        r, active, filled := d.SetVar(name, value, parsing, depth, {});
      case Delete(name) =>
        d.DelVar(name);
        r := Ok(());
      case SetFlag(name, flag, value) =>
        r := d.SetVarFlag(name, flag, value, depth, {});
    }
  }

  /** One write: its effect is on d, and on nothing that another store looks up or iterates. */
  method DoWrite(d: DataSmart, w: Write, depth: nat, ghost others: set<DataSmart>)
    returns (r: Result<(), Error>, ghost active: seq<string>)
    requires d.Valid() && !d.inOverride && (w.SetFlag? ==> IsTextFlag(w.flag))
    requires forall e | e in others :: e.Valid() && Apart(d, e)
    modifies d, d.dict
    ensures forall e | e in others :: e.Valid() && e.Now() == old(e.Now())
    ensures r.Ok? ==> d.Valid() && !d.inOverride && d.Now() == Apply(old(d.Now()), w, active)
    ensures r.Err? ==> WriteStops(old(d.Now()), w, old(d.overrides), active, old(d.overrideVars), depth)
  {
    r, active := Perform(d, w, depth);
  }

  /** Any run of writes to d does what the specification says to d. No other store, whatever layers and
      lists it shares with d, notices: what it looks up, its recorded variants and so what it iterates
      are as before, and it still finds its lists as it left them. */
  method DoWrites(d: DataSmart, ws: seq<Write>, depth: nat, ghost others: set<DataSmart>)
    returns (r: Result<(), Error>, ghost run: Run)
    requires d.Valid() && !d.inOverride && forall w | w in ws :: w.SetFlag? ==> IsTextFlag(w.flag)
    requires forall e | e in others :: e.Valid() && Apart(d, e)
    modifies d, d.dict
    ensures forall e | e in others :: e.Valid() && e.Now() == old(e.Now())
    ensures r.Ok? ==> d.Valid() && !d.inOverride && IsRunOf(run, ws) && d.Now() == ApplyAll(old(d.Now()), run)
    ensures r.Err? ==> |run| < |ws| && Begins(run, ws)
                       && MayStop(ApplyAll(old(d.Now()), run), ws[|run|], depth)
  {
    run := [];
    for i := 0 to |ws|
      invariant d.Valid() && !d.inOverride && forall e | e in others :: e.Valid() && e.Now() == old(e.Now())
      invariant |run| == i && Begins(run, ws) && d.Now() == ApplyAll(old(d.Now()), run)
    {
      assert ws[i] in ws;
      ghost var active, before, vars := [], d.overrides, d.overrideVars;
      r, active := DoWrite(d, ws[i], depth, others);
      if r.Err? {
        StopsAt(ApplyAll(old(d.Now()), run), ws[i], before, active, vars, depth);
        return;
      }
      ApplyOneMore(old(d.Now()), run, ws[i], active);
      run := run + [(ws[i], active)];
    }
    r := Ok(());
  }

  /** A copy is written to: the original, all that stands below it, and every other store there was
      look as they did. The other way round, writes to the original below a copy are in DoWrites as
      well, as long as the copy does not stand on it. */
  method WritesToCopy(d: DataSmart, ws: seq<Write>, depth: nat, ghost others: set<DataSmart>)
    returns (copy: DataSmart, r: Result<(), Error>, ghost run: Run)
    requires d.Valid() && forall w | w in ws :: w.SetFlag? ==> IsTextFlag(w.flag)
    requires forall e | e in others :: e.Valid()
    ensures fresh(copy) && fresh(copy.dict) && copy.dict.parent == d.dict
    ensures forall e | e in others + {d} :: e.Valid() && e.Now() == old(e.Now())
    ensures r.Ok? ==> copy.Valid() && IsRunOf(run, ws) && copy.Now() == ApplyAll(d.Now(), run)
    ensures r.Err? ==> |run| < |ws| && Begins(run, ws) && MayStop(ApplyAll(d.Now(), run), ws[|run|], depth)
  {
    copy := d.CreateCopy();
    r, run := DoWrites(copy, ws, depth, others + {d});
  }
}
