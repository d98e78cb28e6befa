/** What the options of a walk mean for the entries it returns. */
module WalkOptions {
  import opened NamePaths
  import opened WalkSpec
  import opened Wrappers

  /** The way from a directory down to an entry, one directory after the other. */
  predicate LeadsDown(entries: seq<Entry>, way: seq<Entry>)
    decreases |way|
  {
    && way != [] && way[0] in entries
    && (|way| > 1 ==> way[0].DirEntry? && LeadsDown(way[0].children, way[1..]))
  }

  /** Neither hook ignores the entry, its name deciphers, and it is not hidden. */
  predicate Admitted(c: Config, e: Entry)
  {
    && !c.ignoreStored(e.name, e.DirEntry?)
    && View(c, e.name).Some?
    && !c.ignoreView(View(c, e.name).value, e.DirEntry?)
    && (!c.includeHidden ==> !("." <= View(c, e.name).value))
  }

  function End(way: seq<Entry>): Entry
    requires way != []
  {
    way[|way| - 1]
  }

  /** What the caller asked for: everything on the way admitted, no deeper than the
      options say, and the entry of a kind that is not skipped. */
  predicate Wanted(c: Config, way: seq<Entry>)
    requires way != []
  {
    && (forall i | 0 <= i < |way| :: Admitted(c, way[i]))
    && (!c.recursive ==> |way| == 1)
    && (c.maxDepth > 0 ==> |way| - 1 <= c.maxDepth)
    && (c.skipDirs ==> End(way).FileEntry?) && (c.skipFiles ==> End(way).DirEntry?)
  }

  /** The same where the way begins so many directories below the start. */
  predicate WantedFrom(c: Config, way: seq<Entry>, depth: nat)
    requires way != []
  {
    && (forall i | 0 <= i < |way| :: Admitted(c, way[i]))
    && (|way| > 1 ==> c.recursive && (c.maxDepth > 0 ==> depth + |way| - 1 <= c.maxDepth))
    && (c.skipDirs ==> End(way).FileEntry?) && (c.skipFiles ==> End(way).DirEntry?)
  }

  /** The entry at the end of the way, by the shown names joined to the start. */
  function At(c: Config, text: string, way: seq<Entry>): Found
    requires way != [] && forall i | 0 <= i < |way| :: View(c, way[i].name).Some?
    decreases |way|
  {
    var path := Child(text, View(c, way[0].name).value);
    if |way| == 1 then Found(path, way[0].DirEntry?) else At(c, path, way[1..])
  }

  ghost predicate LeadsTo(c: Config, entries: seq<Entry>, text: string, depth: nat, way: seq<Entry>, o: Found)
  {
    LeadsDown(entries, way) && WantedFrom(c, way, depth) && At(c, text, way) == o
  }

  lemma WayTail(c: Config, way: seq<Entry>, depth: nat)
    requires |way| > 1
    ensures WantedFrom(c, way, depth) <==>
            Admitted(c, way[0]) && c.recursive && (c.maxDepth > 0 ==> depth < c.maxDepth)
            && WantedFrom(c, way[1..], depth + 1)
  {
    assert End(way[1..]) == End(way);
    assert forall i | 0 < i < |way| :: way[i] == way[1..][i - 1];
    if WantedFrom(c, way[1..], depth + 1) && Admitted(c, way[0]) {
      forall i | 0 <= i < |way| ensures Admitted(c, way[i]) {
        assert i > 0 ==> Admitted(c, way[1..][i - 1]);
      }
    }
  }

  lemma {:induction false} WayIsAllowed(c: Config, entries: seq<Entry>, text: string, depth: nat, way: seq<Entry>,
                                        o: Found)
    requires LeadsTo(c, entries, text, depth, way, o)
    ensures o in Allowed(c, entries, text, depth)
    decreases |way|, entries
  {
    if entries[0] != way[0] {
      assert way[0] in entries[1..];
      WayIsAllowed(c, entries[1..], text, depth, way, o);
    } else {
      assert Admitted(c, way[0]);
      if |way| > 1 {
        WayTail(c, way, depth);
        WayIsAllowed(c, way[0].children, Child(text, View(c, way[0].name).value), depth + 1, way[1..], o);
      }
      assert o in AllowedEntry(c, entries[0], text, depth);
    }
  }

  lemma {:induction false} AllowedHasWay(c: Config, entries: seq<Entry>, text: string, depth: nat, o: Found)
    returns (way: seq<Entry>)
    requires o in Allowed(c, entries, text, depth)
    ensures LeadsTo(c, entries, text, depth, way, o)
    decreases entries, 1
  {
    if o in AllowedEntry(c, entries[0], text, depth) {
      way := EntryHasWay(c, entries[0], text, depth, o);
    } else {
      way := AllowedHasWay(c, entries[1..], text, depth, o);
    }
  }

  lemma {:induction false} EntryHasWay(c: Config, e: Entry, text: string, depth: nat, o: Found)
    returns (way: seq<Entry>)
    requires o in AllowedEntry(c, e, text, depth)
    ensures way != [] && way[0] == e && LeadsTo(c, [e], text, depth, way, o)
    decreases e, 0
  {
    var path := Child(text, View(c, e.name).value);
    if Shown(c, e) && o == Found(path, e.DirEntry?) {
      way := [e];
    } else {
      var below := AllowedHasWay(c, e.children, path, depth + 1, o);
      way := [e] + below;
      assert way[1..] == below;
      WayTail(c, way, depth);
    }
  }

  /** An entry is allowed exactly if the options ask for it: some way down to it is
      wanted, and it is found under the names on that way. */
  lemma AllowedIsWanted(c: Config, entries: seq<Entry>, start: string, o: Found)
    ensures o in Allowed(c, entries, start, 0) <==>
            exists way :: LeadsDown(entries, way) && Wanted(c, way) && At(c, start, way) == o
  {
    if o in Allowed(c, entries, start, 0) {
      var way := AllowedHasWay(c, entries, start, 0, o);
      assert Wanted(c, way);
    }
    if way :| LeadsDown(entries, way) && Wanted(c, way) && At(c, start, way) == o {
      WayIsAllowed(c, entries, start, 0, way, o);
    }
  }

  // ------------------------------------------------------------ what a walk returns

  lemma PushedWithin(c: Config, open: Openings, e: Entry, text: string, depth: nat, stack: seq<Waiting>)
    requires Judge(c, e, text, depth, |stack|).1
    ensures AllowedWaiting(c, Pushed(c, open, e, text, depth, stack))
         <= AllowedWaiting(c, stack) + Allowed(c, e.children, Child(text, View(c, e.name).value), depth + 1)
  {
    WaitingPush(c, stack, WaitingFor(open, Child(text, View(c, e.name).value), depth + 1, e.children));
  }

  lemma JudgeWithin(c: Config, open: Openings, e: Entry, text: string, depth: nat, stack: seq<Waiting>)
    ensures var v := Judge(c, e, text, depth, |stack|).0;
            (if v.Return? then multiset{v.found} else multiset{})
            + AllowedWaiting(c, Pushed(c, open, e, text, depth, stack))
            <= AllowedEntry(c, e, text, depth) + AllowedWaiting(c, stack)
  {
    if Judge(c, e, text, depth, |stack|).1 {
      var path := Child(text, View(c, e.name).value);
      PushedWithin(c, open, e, text, depth, stack);
      assert AllowedEntry(c, e, text, depth) ==
             (if Shown(c, e) then multiset{Found(path, true)} else multiset{})
             + Allowed(c, e.children, path, depth + 1);
    } else {
      assert Pushed(c, open, e, text, depth, stack) == stack;
    }
  }

  lemma HeadWithin(entry: multiset<Found>, tail: multiset<Found>, waiting: multiset<Found>,
                   now: multiset<Found>, next: multiset<Found>, later: multiset<Found>)
    requires now + next <= entry + waiting && later <= tail + next
    ensures now + later <= (entry + tail) + waiting
  {
    forall o: Found ensures (now + later)[o] <= ((entry + tail) + waiting)[o] {
      assert (now + next)[o] <= (entry + waiting)[o] && later[o] <= (tail + next)[o];
    }
  }

  /** Also a walk that reports errors returns nothing but allowed entries, and none
      more often than the tree has it. */
  lemma {:induction false} ReturnsOnlyAllowed(c: Config, open: Openings, rest: seq<Entry>, text: string, depth: nat,
                                              stack: seq<Waiting>)
    ensures Results(Events(c, open, rest, text, depth, stack))
         <= Allowed(c, rest, text, depth) + AllowedWaiting(c, stack)
    decreases Size(rest) + StackSize(stack), |stack|
  {
    if rest != [] {
      var v, next := Judge(c, rest[0], text, depth, |stack|).0, Pushed(c, open, rest[0], text, depth, stack);
      EventsUnfold(c, open, rest, text, depth, stack);
      ReturnsOnlyAllowed(c, open, rest[1..], text, depth, next);
      ResultsOfPrefix(v, Events(c, open, rest[1..], text, depth, next));
      JudgeWithin(c, open, rest[0], text, depth, stack);
      HeadWithin(AllowedEntry(c, rest[0], text, depth), Allowed(c, rest[1..], text, depth), AllowedWaiting(c, stack),
                 if v.Return? then multiset{v.found} else multiset{}, AllowedWaiting(c, next),
                 Results(Events(c, open, rest[1..], text, depth, next)));
    } else if c.recursive && stack != [] {
      var w := stack[|stack| - 1];
      if open(w.text).Opened? {
        PopReturnsAllowed(c, open, text, depth, stack);
        ReturnsOnlyAllowed(c, open, w.children, w.text, w.depth, stack[..|stack| - 1]);
      }
    }
  }

  /** The names below the start that a returned path is made of. */
  function Joined(start: string, names: seq<string>): string
    decreases |names|
  {
    if names == [] then start else Joined(Child(start, names[0]), names[1..])
  }

  lemma {:induction false} AtIsJoined(c: Config, text: string, way: seq<Entry>) returns (names: seq<string>)
    requires way != [] && forall i | 0 <= i < |way| :: View(c, way[i].name).Some?
    ensures |names| == |way| && At(c, text, way) == Found(Joined(text, names), End(way).DirEntry?)
    ensures forall i | 0 <= i < |way| :: Some(names[i]) == View(c, way[i].name)
    decreases |way|
  {
    var name := View(c, way[0].name).value;
    if |way| == 1 {
      names := [name];
      assert Joined(text, names) == Joined(Child(text, name), []);
    } else {
      var more := AtIsJoined(c, Child(text, name), way[1..]);
      names := [name] + more;
      assert names[1..] == more;
    }
  }

  /** What holds of everything a walk returns. */
  ghost predicate Obeys(c: Config, start: string, o: Found, names: seq<string>)
  {
    && names != [] && o.path == Joined(start, names)
    && (!c.includeHidden ==> forall i | 0 <= i < |names| :: !("." <= names[i]))
    && (!c.recursive ==> |names| == 1)
    && (c.maxDepth > 0 ==> |names| - 1 <= c.maxDepth)
    && (c.skipDirs ==> !o.isDir) && (c.skipFiles ==> o.isDir)
  }

  /** With or without errors: only files where directories are skipped and the other
      way round, no hidden component unless asked for, nothing deeper than the
      limit. And without errors everything that is asked for. */
  lemma WalkObeysOptions(c: Config, open: Openings, entries: seq<Entry>, start: string, o: Found)
    requires NameLaw(c) && WellFormed(entries)
    ensures var found := Results(Events(c, open, entries, start, 0, []));
            && (o in found ==> exists names :: Obeys(c, start, o, names))
            && (NoErrors(Events(c, open, entries, start, 0, [])) ==>
                  (o in found <==>
                   exists way :: LeadsDown(entries, way) && Wanted(c, way) && At(c, start, way) == o))
  {
    ReturnsOnlyAllowed(c, open, entries, start, 0, []);
    AllowedIsWanted(c, entries, start, o);
    if o in Results(Events(c, open, entries, start, 0, [])) {
      assert o in Allowed(c, entries, start, 0) + AllowedWaiting(c, []);
      var way :| LeadsDown(entries, way) && Wanted(c, way) && At(c, start, way) == o;
      var names := AtIsJoined(c, start, way);
      assert Obeys(c, start, o, names);
    }
    if NoErrors(Events(c, open, entries, start, 0, [])) {
      CompleteWalk(c, open, entries, start);
    }
  }

  // ------------------------------------------------------------- the pending limit

  /** A directory to be entered is refused exactly if as many wait as the caller says,
      at most 4096, and 1024 where the caller says less than one. */
  lemma RefusedWhenFull(c: Config, e: Entry, text: string, depth: nat, pending: nat)
    requires Admitted(c, e) && e.DirEntry? && c.recursive && (c.maxDepth > 0 ==> depth < c.maxDepth)
    ensures var most := c.maxPendingDirectories;
            Judge(c, e, text, depth, pending) == (Fail(WorkLimit), false) <==>
              pending >= 4096 || (if most >= 1 then pending >= most else pending >= 1024)
  {
    assert Passes(c, e) && Descends(c, e, depth);
  }

  // ------------------------------------------------- names that do not decipher

  /** Every entry the walk meets and does not ignore has a name that deciphers. */
  ghost predicate Deciphered(c: Config, entries: seq<Entry>, depth: nat)
  {
    forall e | e in entries :: DecipheredEntry(c, e, depth)
  }

  ghost predicate DecipheredEntry(c: Config, e: Entry, depth: nat)
  {
    c.ignoreStored(e.name, e.DirEntry?) ||
    (View(c, e.name).Some? && (Passes(c, e) && Descends(c, e, depth) ==> Deciphered(c, e.children, depth + 1)))
  }

  ghost predicate AllDeciphered(c: Config, stack: seq<Waiting>)
  {
    forall w | w in stack :: Deciphered(c, w.children, w.depth)
  }

  lemma HeadDeciphered(c: Config, open: Openings, e: Entry, text: string, depth: nat, stack: seq<Waiting>)
    requires !Judge(c, e, text, depth, |stack|).0.Fail?
    requires var next := Pushed(c, open, e, text, depth, stack); CanOpen(open, next) && AllDeciphered(c, next)
    ensures DecipheredEntry(c, e, depth) && AllDeciphered(c, stack)
  {
    var next := Pushed(c, open, e, text, depth, stack);
    if Judge(c, e, text, depth, |stack|).1 {
      PushedOpens(c, open, e, text, depth, stack);
      assert next[|stack|] in next;
    }
    StackInPushed(c, open, e, text, depth, stack);
  }

  lemma ConsDeciphered(c: Config, rest: seq<Entry>, depth: nat)
    requires rest != [] && DecipheredEntry(c, rest[0], depth) && Deciphered(c, rest[1..], depth)
    ensures Deciphered(c, rest, depth)
  {
    assert forall x | x in rest :: x == rest[0] || x in rest[1..];
  }

  lemma TopDeciphered(c: Config, stack: seq<Waiting>)
    requires stack != [] && AllDeciphered(c, stack[..|stack| - 1])
    requires var w := stack[|stack| - 1]; Deciphered(c, w.children, w.depth)
    ensures AllDeciphered(c, stack)
  {
    assert forall w | w in stack :: w == stack[|stack| - 1] || w in stack[..|stack| - 1];
  }

  /** A walk that reports no error has deciphered every name it met. */
  lemma {:induction false} NoErrorsDeciphered(c: Config, open: Openings, rest: seq<Entry>, text: string, depth: nat,
                                              stack: seq<Waiting>)
    requires c.recursive || stack == []
    requires NoErrors(Events(c, open, rest, text, depth, stack))
    ensures Deciphered(c, rest, depth) && AllDeciphered(c, stack)
    decreases Size(rest) + StackSize(stack), |stack|
  {
    if rest != [] {
      var next := Pushed(c, open, rest[0], text, depth, stack);
      EventsUnfold(c, open, rest, text, depth, stack);
      HeadNoErrors(c, open, rest, text, depth, stack);
      NoErrorsDeciphered(c, open, rest[1..], text, depth, next);
      if c.recursive {
        NoErrorsOpensAll(c, open, rest[1..], text, depth, next);
      }
      HeadDeciphered(c, open, rest[0], text, depth, stack);
      ConsDeciphered(c, rest, depth);
    } else if stack != [] {
      var w, below := stack[|stack| - 1], stack[..|stack| - 1];
      NoErrorsOpensAll(c, open, rest, text, depth, stack);
      PopReturnsAllowed(c, open, text, depth, stack);
      NoErrorsDeciphered(c, open, w.children, w.text, w.depth, below);
      TopDeciphered(c, stack);
    }
  }

  /** The way to an entry that the walk comes to: everything before it is entered. */
  predicate ComesTo(c: Config, way: seq<Entry>)
    requires way != []
  {
    && (forall i | 0 <= i < |way| - 1 :: Admitted(c, way[i]))
    && (|way| > 1 ==> c.recursive && (c.maxDepth > 0 ==> |way| - 1 <= c.maxDepth))
  }

  lemma {:induction false} OnTheWay(c: Config, entries: seq<Entry>, depth: nat, way: seq<Entry>)
    requires Deciphered(c, entries, depth) && LeadsDown(entries, way)
    requires forall i | 0 <= i < |way| - 1 :: Admitted(c, way[i])
    requires |way| > 1 ==> c.recursive && (c.maxDepth > 0 ==> depth + |way| - 1 <= c.maxDepth)
    ensures c.ignoreStored(End(way).name, End(way).DirEntry?) || View(c, End(way).name).Some?
    decreases |way|
  {
    if |way| > 1 {
      assert Admitted(c, way[0]) && Passes(c, way[0]) && Descends(c, way[0], depth);
      assert forall i | 0 <= i < |way| - 2 :: way[1..][i] == way[i + 1];
      OnTheWay(c, way[0].children, depth + 1, way[1..]);
    }
  }

  /** A name that does not decipher is never passed over in silence: where the walk
      comes to an entry with such a name that is not ignored, it reports an error. */
  lemma UnreadNameIsReported(c: Config, open: Openings, entries: seq<Entry>, start: string, way: seq<Entry>)
    requires LeadsDown(entries, way) && ComesTo(c, way)
    requires !c.ignoreStored(End(way).name, End(way).DirEntry?) && View(c, End(way).name).None?
    ensures !NoErrors(Events(c, open, entries, start, 0, []))
  {
    if NoErrors(Events(c, open, entries, start, 0, [])) {
      NoErrorsDeciphered(c, open, entries, start, 0, []);
      OnTheWay(c, entries, 0, way);
    }
  }

  // --------------------------------------------------------------------- starting over

  /** A walk that begins its directory again returns what is allowed there and in the
      directories that wait; so it starts over exactly if it stands where it began and
      nothing allowed waits. */
  lemma StartsOverExactly(c: Config, open: Openings, entries: seq<Entry>, start: string, stack: seq<Waiting>)
    requires c.recursive && NoErrors(Events(c, open, entries, start, 0, stack))
    requires NoErrors(Events(c, open, entries, start, 0, []))
    ensures Results(Events(c, open, entries, start, 0, stack))
         == Results(Events(c, open, entries, start, 0, [])) + AllowedWaiting(c, stack)
    ensures Results(Events(c, open, entries, start, 0, stack)) == Results(Events(c, open, entries, start, 0, []))
       <==> AllowedWaiting(c, stack) == multiset{}
  {
    WalkReturnsAllowed(c, open, entries, start, 0, stack);
    WalkReturnsAllowed(c, open, entries, start, 0, []);
    var whole, more := Allowed(c, entries, start, 0), AllowedWaiting(c, stack);
    if whole + more == whole {
      forall o: Found ensures more[o] == 0 {
        assert (whole + more)[o] == whole[o] + more[o];
      }
    }
  }
}
