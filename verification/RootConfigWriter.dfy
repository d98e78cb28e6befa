/** Changing a root's password or hint, one disk change at a time. */
module RootConfigWriter {
  import opened RootConfig
  import Runs = RootConfigRuns

  datatype Disk = Disk(config: File, staged: map<string, File>)

  datatype Reply = Committed | Refused

  lemma OnlyName(a: map<string, File>, b: map<string, File>, name: string, file: File)
    requires a - {name} == b - {name}
    ensures a[name := file] == b[name := file]
  {
    forall n | n != name ensures n in a <==> n in b
    {
      assert n in a <==> n in a - {name};
      assert n in b <==> n in b - {name};
    }
    forall n | n != name && n in a ensures a[n] == b[n] {
      assert (a - {name})[n] == (b - {name})[n];
    }
  }

  lemma Dropped(staged: map<string, File>, name: string, file: File)
    requires name !in staged
    ensures staged[name := file] - {name} == staged
  {
  }

  class ConfiguredRoot {
    var disk: Disk
    ghost var trace: seq<Disk>
    /** How often a file operation failed. */
    ghost var faults: nat

    ghost predicate Recorded()
      reads this
    {
      trace != [] && trace[|trace| - 1] == disk
    }

    method MayFail() returns (fails: bool)
      modifies this`faults
      ensures faults == if fails then old(faults) + 1 else old(faults)
    {
      fails := *;
      if fails {
        faults := faults + 1;
      }
    }

    method Stage(name: string) returns (ok: bool, memory: Config)
      requires Recorded() && name !in disk.staged && disk.config.Whole?
      modifies this
      ensures Recorded() && old(trace) <= trace
      ensures forall i | |old(trace)| <= i < |trace| :: trace[i].config == old(disk.config)
      ensures disk.config == old(disk.config)
      ensures ok ==> memory == disk.config.config && disk.staged == old(disk.staged)[name := Whole(memory)]
      ensures !ok ==> disk.staged - {name} == old(disk.staged)
      ensures faults >= old(faults) && (faults == old(faults) ==> ok)
    {
      memory := map[];
      var fails := MayFail();
      if fails {
        return false, memory;
      }
      disk := disk.(staged := disk.staged[name := Torn]);
      trace := trace + [disk];
      fails := MayFail();
      if fails {
        Remove(name);
        return false, memory;
      }
      disk := disk.(staged := disk.staged[name := disk.config]);
      trace := trace + [disk];
      memory := disk.config.config;
      ok := true;
    }

    method Remove(name: string)
      requires Recorded()
      modifies this
      ensures Recorded() && trace == old(trace) + [disk] && disk.config == old(disk.config)
      ensures disk.staged == old(disk.staged) - {name} || disk.staged == old(disk.staged)
      ensures faults >= old(faults) && (faults == old(faults) ==> disk.staged == old(disk.staged) - {name})
    {
      var fails := MayFail();
      if !fails {
        disk := disk.(staged := disk.staged - {name});
      }
      trace := trace + [disk];
    }

    /** One field: into memory, then the whole staged file is written again. */
    method Set(name: string, memory: Config, field: Field, value: string) returns (ok: bool, next: Config)
      requires Recorded()
      modifies this
      ensures Recorded() && old(trace) <= trace && disk.config == old(disk.config)
      ensures forall i | |old(trace)| <= i < |trace| :: trace[i].config == old(disk.config)
      ensures next == memory[field := value]
      ensures disk.staged - {name} == old(disk.staged) - {name}
      ensures ok ==> disk.staged == old(disk.staged)[name := Whole(next)]
      ensures faults >= old(faults) && (faults == old(faults) ==> ok)
    {
      next := memory[field := value];
      var fails := MayFail();
      if fails {
        return false, next;
      }
      disk := disk.(staged := disk.staged[name := Torn]);
      trace := trace + [disk];
      fails := MayFail();
      ok := !fails;
      if ok {
        disk := disk.(staged := disk.staged[name := Whole(next)]);
        trace := trace + [disk];
      }
    }

    /** All fields in order. The key derivation does not look at errors of its own
        two fields; the other writes stop at the first error. */
    method SetAll(name: string, start: Config, writes: seq<(Field, string)>, ignored: nat)
      returns (ok: bool, memory: Config)
      requires Recorded() && ignored < |writes|
      modifies this
      ensures Recorded() && old(trace) <= trace && disk.config == old(disk.config)
      ensures forall i | |old(trace)| <= i < |trace| :: trace[i].config == old(disk.config)
      ensures disk.staged - {name} == old(disk.staged) - {name}
      ensures ok ==> memory == WriteAll(start, writes) && disk.staged == old(disk.staged)[name := Whole(memory)]
      ensures faults >= old(faults) && (faults == old(faults) ==> ok)
    {
      memory := start;
      assert writes[..0] == [];
      for n := 0 to |writes|
        invariant Recorded() && old(trace) <= trace && disk.config == old(disk.config)
        invariant forall i | |old(trace)| <= i < |trace| :: trace[i].config == old(disk.config)
        invariant memory == WriteAll(start, writes[..n])
        invariant disk.staged - {name} == old(disk.staged) - {name}
        invariant faults >= old(faults)
        invariant n > ignored ==> disk.staged == old(disk.staged)[name := Whole(memory)]
      {
        assert writes[..n + 1][..n] == writes[..n];
        ghost var before := disk.staged;
        ok, memory := Set(name, memory, writes[n].0, writes[n].1);
        OnlyName(before, old(disk.staged), name, Whole(memory));
        if !ok && n >= ignored {
          return;
        }
      }
      assert writes[..|writes|] == writes;
      ok := true;
    }

    /** The commit point: one rename of the staged file over the configuration. */
    method Commit(name: string) returns (ok: bool)
      requires Recorded() && name in disk.staged
      modifies this
      ensures Recorded() && trace == old(trace) + [disk]
      ensures ok ==> disk == Disk(old(disk.staged)[name], old(disk.staged) - {name})
      ensures !ok ==> disk == old(disk)
      ensures faults >= old(faults) && (faults == old(faults) ==> ok)
    {
      var fails := MayFail();
      if !fails {
        disk := Disk(disk.staged[name], disk.staged - {name});
      }
      trace := trace + [disk];
      ok := !fails;
    }

    /** A password change or a hint update, called with the lock held. At every
        recorded point the configuration is the old record or the whole new one;
        the reply says which. */
    method Change(c: Crypto, u: Update, name: string) returns (reply: Reply)
      requires Recorded() && name !in disk.staged
      modifies this
      ensures Recorded() && old(trace) <= trace
      ensures forall i | |old(trace)| <= i < |trace| ::
                trace[i].config == old(disk.config)
                || (old(disk.config).Whole? && Checked(c, old(disk.config).config, u).Content?
                    && trace[i].config == Whole(Apply(c, old(disk.config).config, u)))
      ensures reply == Committed ==>
                old(disk.config).Whole? && Checked(c, old(disk.config).config, u).Content?
                && disk == Disk(Whole(Apply(c, old(disk.config).config, u)), old(disk.staged))
      ensures reply == Refused ==> disk.config == old(disk.config)
      ensures reply == Committed ==> Runs.Replaces(c, u, old(disk.config), disk.config)
      ensures reply == Committed && CollisionFree(c) ==>
                forall p | Unlock(c, old(disk.config).config, p).Content? :: MayChange(old(disk.config).config, u, p)
      ensures faults >= old(faults)
      ensures faults == old(faults) ==>
                (reply == Committed <==> old(disk.config).Whole? && Checked(c, old(disk.config).config, u).Content?)
      ensures disk.staged - {name} == old(disk.staged)
    {
      if disk.config.Torn? {
        return Refused;
      }
      var base := disk.config.config;
      var checked := Checked(c, base, u);
      if !checked.Content? {
        return Refused;
      }
      reply := StageAndCommit(c, u, name, checked.key);
      Runs.ChangeReplaces(c, u, base);
      if CollisionFree(c) {
        forall p | Unlock(c, base, p).Content? ensures MayChange(base, u, p) {
          AcceptedExactly(c, base, u, p);
        }
      }
    }

    /** A change that passed its checks: `content` is the key to wrap again. */
    method StageAndCommit(c: Crypto, u: Update, name: string, content: string) returns (reply: Reply)
      requires Recorded() && name !in disk.staged
      requires disk.config.Whole? && Checked(c, disk.config.config, u) == Content(content)
      modifies this
      ensures Recorded() && old(trace) <= trace
      ensures forall i | |old(trace)| <= i < |trace| ::
                trace[i].config == old(disk.config) || trace[i].config == Whole(Apply(c, old(disk.config).config, u))
      ensures reply == Committed ==> disk == Disk(Whole(Apply(c, old(disk.config).config, u)), old(disk.staged))
      ensures reply == Refused ==> disk.config == old(disk.config)
      ensures disk.staged - {name} == old(disk.staged)
      ensures faults >= old(faults) && (faults == old(faults) ==> reply == Committed)
    {
      ghost var after := Apply(c, disk.config.config, u);
      var built := BuildStaged(c, u, name, content);
      if !built {
        return Refused;
      }
      Dropped(old(disk.staged), name, Whole(after));
      var committed := Commit(name);
      if !committed {
        Remove(name);
        return Refused;
      }
      reply := Committed;
    }

    /** The staged file with all fields written; on an error it is removed, if it can be. */
    method BuildStaged(c: Crypto, u: Update, name: string, content: string) returns (ok: bool)
      requires Recorded() && name !in disk.staged && disk.config.Whole?
      modifies this
      ensures Recorded() && old(trace) <= trace && disk.config == old(disk.config)
      ensures forall i | |old(trace)| <= i < |trace| :: trace[i].config == old(disk.config)
      ensures disk.staged - {name} == old(disk.staged)
      ensures ok ==>
                disk.staged == old(disk.staged)[name := Whole(WriteAll(disk.config.config,
                                                                       Writes(c, disk.config.config, u, content)))]
      ensures faults >= old(faults) && (faults == old(faults) ==> ok)
    {
      var staged, memory := Stage(name);
      if !staged {
        return false;
      }
      Dropped(old(disk.staged), name, Whole(memory));
      var writes := Writes(c, memory, u, content);
      var final;
      ok, final := SetAll(name, memory, writes, if u.NewPassword? then 2 else 0);
      if !ok {
        Remove(name);
      }
    }
  }
}
