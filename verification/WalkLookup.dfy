/** How a walk finds its directories again. It keeps their paths as text, and each
    text goes through the path parser and the name cipher when its turn comes. */
module WalkLookup {
  import opened NamePaths
  import opened PathClean
  import opened PathParser
  import opened StorePath
  import opened WalkSpec
  import opened Wrappers

  /** What opening a stored path finds: the entries of a directory, or nothing. */
  function Lookup(entries: seq<Entry>, path: seq<string>): Option<seq<Entry>>
    decreases |path|, entries
  {
    if path == [] then Some(entries)
    else if entries == [] then None
    else if entries[0].name == path[0] then
      (if entries[0].DirEntry? then Lookup(entries[0].children, path[1..]) else None)
    else Lookup(entries[1..], path)
  }

  /** The directory reached by entering these names, one in the other. */
  ghost predicate DirectoryAt(entries: seq<Entry>, path: seq<string>, found: seq<Entry>)
    decreases |path|
  {
    if path == [] then found == entries
    else exists e :: e in entries && e.DirEntry? && e.name == path[0] && DirectoryAt(e.children, path[1..], found)
  }

  /** Opening finds a directory exactly if there is one, and never a file. */
  lemma {:induction false} LookupFindsDirectory(entries: seq<Entry>, path: seq<string>, found: seq<Entry>)
    requires WellFormed(entries)
    ensures Lookup(entries, path) == Some(found) <==> DirectoryAt(entries, path, found)
    decreases |path|, entries
  {
    if path != [] && entries != [] {
      var first := entries[0];
      if first.name == path[0] {
        if first.DirEntry? {
          LookupFindsDirectory(first.children, path[1..], found);
        }
        assert forall e | e in entries && e.name == path[0] :: e == first;
      } else {
        LookupFindsDirectory(entries[1..], path, found);
        assert forall e | e in entries && e.name == path[0] :: e in entries[1..];
      }
    }
  }

  lemma {:induction false} LookupInside(entries: seq<Entry>, path: seq<string>)
    requires WellFormed(entries) && Lookup(entries, path).Some?
    ensures WellFormed(Lookup(entries, path).value)
    decreases |path|, entries
  {
    if path != [] {
      if entries[0].name == path[0] {
        LookupInside(entries[0].children, path[1..]);
      } else {
        LookupInside(entries[1..], path);
      }
    }
  }

  lemma {:induction false} LookupMember(entries: seq<Entry>, e: Entry)
    requires WellFormed(entries) && e in entries && e.DirEntry?
    ensures Lookup(entries, [e.name]) == Some(e.children)
  {
    if entries[0] == e {
      assert [e.name][1..] == [];
    } else {
      var i :| 0 <= i < |entries| && entries[i] == e;
      assert entries[1..][i - 1] == e;
      LookupMember(entries[1..], e);
    }
  }

  /** A directory found in a directory is found by the longer path. */
  lemma {:induction false} LookupChild(entries: seq<Entry>, path: seq<string>, e: Entry)
    requires WellFormed(entries) && Lookup(entries, path).Some?
    requires e in Lookup(entries, path).value && e.DirEntry?
    ensures Lookup(entries, path + [e.name]) == Some(e.children)
    decreases |path|, entries
  {
    if path == [] {
      assert path + [e.name] == [e.name];
      LookupMember(entries, e);
    } else {
      assert (path + [e.name])[1..] == path[1..] + [e.name];
      if entries[0].name == path[0] {
        LookupChild(entries[0].children, path[1..], e);
      } else {
        LookupChild(entries[1..], path, e);
      }
    }
  }

  /** Opening the directory at a view path. */
  function Open(c: Config, root: seq<Entry>, text: string): Opening
  {
    var names := StoreTarget(c.naming, text);
    if names.None? then Refused
    else match Lookup(root, names.value)
         case None => Missing
         case Some(entries) => Opened(entries)
  }

  /** Opening by path, as the walk uses it. */
  function Opener(c: Config, root: seq<Entry>): Openings
  {
    text => Open(c, root, text)
  }

  /** `open` gives what the stored names of a path lead to. `Asks` says nothing: it
      marks the paths for which a proof wants to look behind `open`. */
  ghost predicate OpensStored(open: Openings, c: Config, root: seq<Entry>)
  {
    forall text {:trigger Asks(text)} :: Asks(text) ==> open(text) == Open(c, root, text)
  }

  predicate Asks(text: string)
  {
    true
  }

  // ------------------------------------------------ directories found as themselves

  /** The joined path of an entry is refused or leads to the entry. */
  predicate HonestName(text: string, name: string)
  {
    var target := ViewTarget(Child(text, name));
    target.None? || (ViewTarget(text).Some? && target == Some(ViewTarget(text).value + [name]))
  }

  /** No directory that the walk enters has a joined path that leads elsewhere. */
  predicate Honest(c: Config, entries: seq<Entry>, text: string, depth: nat)
    decreases entries, 0
  {
    entries == [] || (HonestEntry(c, entries[0], text, depth) && Honest(c, entries[1..], text, depth))
  }

  predicate HonestEntry(c: Config, e: Entry, text: string, depth: nat)
    decreases e, 1
  {
    Passes(c, e) && Descends(c, e, depth) ==>
      HonestName(text, View(c, e.name).value) && HonestBelow(c, e, Child(text, View(c, e.name).value), depth)
  }

  /** The same for what is below a directory whose path is not refused. */
  predicate HonestBelow(c: Config, e: Entry, path: string, depth: nat)
    decreases e, 0
  {
    e.DirEntry? && ViewTarget(path).Some? ==> Honest(c, e.children, path, depth + 1)
  }

  /** A name without a separator is honest everywhere: at worst its path is refused. */
  lemma NameIsHonest(text: string, name: string)
    requires ViewTarget(text).Some? && Name(name)
    ensures HonestName(text, name)
  {
    if text != "" {
      ViewChildBelow(text, name);
    } else if PlainPath([name]) {
      ViewChild(text, name);
    } else {
      assert PathClean.Join([name], '/') == name;
      if !DriveString(name) {
        ReparseRelative([name], '/', SYSTEM);
      } else {
        assert HasDrive(name) && DriveOf(name) != "";
      }
    }
  }

  /** A directory with an honest path is opened as itself, or its path is refused. */
  lemma HonestOpens(c: Config, root: seq<Entry>, text: string, e: Entry)
    requires NameLaw(c) && WellFormed(root) && Open(c, root, text).Opened?
    requires e in Open(c, root, text).entries && e.DirEntry? && View(c, e.name).Some?
    requires HonestName(text, View(c, e.name).value)
    ensures var path := Child(text, View(c, e.name).value);
            Open(c, root, path) == if ViewTarget(path).Some? then Opened(e.children) else Refused
  {
    var names := StoreTarget(c.naming, text).value;
    var here := Lookup(root, names).value;
    var view := View(c, e.name).value;
    LookupInside(root, names);
    var i :| 0 <= i < |here| && here[i] == e;
    GenuineIn(here, i);
    ViewRestored(c, e.name);
    StoreTargetOfView(c.naming, text);
    StoreTargetOfView(c.naming, Child(text, view));
    if ViewTarget(Child(text, view)).Some? {
      ViewChild(text, view);
      StoreChild(c.naming, text, view);
      LookupChild(root, names, e);
    }
  }

  /** What an entered directory's path opens, if anything, is that directory. */
  ghost predicate Truthful(c: Config, open: Openings, entries: seq<Entry>, text: string, depth: nat)
  {
    entries == [] || (TruthfulEntry(c, open, entries[0], text, depth) && Truthful(c, open, entries[1..], text, depth))
  }

  ghost predicate TruthfulEntry(c: Config, open: Openings, e: Entry, text: string, depth: nat)
  {
    Passes(c, e) && Descends(c, e, depth) ==>
      var path := Child(text, View(c, e.name).value);
      open(path).Opened? ==> open(path) == Opened(e.children) && Truthful(c, open, e.children, path, depth + 1)
  }

  lemma {:induction false} HonestIsTruthful(c: Config, root: seq<Entry>, rest: seq<Entry>, text: string, depth: nat)
    requires NameLaw(c) && WellFormed(root) && Open(c, root, text).Opened?
    requires Honest(c, rest, text, depth) && forall e | e in rest :: e in Open(c, root, text).entries
    ensures Truthful(c, Opener(c, root), rest, text, depth)
    decreases rest, 1
  {
    if rest != [] {
      assert rest[0] in rest;
      HonestEntryIsTruthful(c, root, rest[0], text, depth);
      HonestIsTruthful(c, root, rest[1..], text, depth);
    }
  }

  lemma {:induction false} HonestEntryIsTruthful(c: Config, root: seq<Entry>, e: Entry, text: string, depth: nat)
    requires NameLaw(c) && WellFormed(root) && Open(c, root, text).Opened?
    requires HonestEntry(c, e, text, depth) && e in Open(c, root, text).entries
    ensures TruthfulEntry(c, Opener(c, root), e, text, depth)
    decreases e, 0
  {
    if Passes(c, e) && Descends(c, e, depth) {
      var path := Child(text, View(c, e.name).value);
      HonestOpens(c, root, text, e);
      assert Opener(c, root)(path) == Open(c, root, path);
      if ViewTarget(path).Some? {
        HonestIsTruthful(c, root, e.children, path, depth + 1);
      }
    }
  }

  // ------------------------------------------------------- the walk by its texts

  /** A directory that waits, as the walker remembers it. */
  datatype Item = Item(text: string, depth: nat)

  datatype Position = At(rest: seq<Entry>, text: string, depth: nat, stack: seq<Item>) | Lost

  /** One step: an entry is judged, or the last waiting directory is opened. A
      directory that cannot be opened leaves the walker without a handle. */
  function Step(c: Config, open: Openings, p: Position): (seq<Event>, Position)
  {
    if p.Lost? then ([Failed(BadHandle)], Lost)
    else if p.rest != [] then
      var (verdict, push) := Judge(c, p.rest[0], p.text, p.depth, |p.stack|);
      var item := if push then [Item(Child(p.text, View(c, p.rest[0].name).value), p.depth + 1)] else [];
      (EventOf(verdict), At(p.rest[1..], p.text, p.depth, p.stack + item))
    else if c.recursive && p.stack != [] then
      var top := p.stack[|p.stack| - 1];
      if open(top.text).Opened?
      then ([], At(open(top.text).entries, top.text, top.depth, p.stack[..|p.stack| - 1]))
      else ([Failed(OpenError(open(top.text)))], Lost)
    else ([], p)
  }

  function Run(c: Config, open: Openings, p: Position, steps: nat): seq<Event>
    decreases steps
  {
    if steps == 0 then [] else Step(c, open, p).0 + Run(c, open, Step(c, open, p).1, steps - 1)
  }

  /** A walker without a handle has one answer. */
  function Dead(steps: nat): seq<Event>
  {
    if steps == 0 then [] else [Failed(BadHandle)] + Dead(steps - 1)
  }

  /** The remembered path leads to the directory that waits, or nowhere. */
  ghost predicate LeadsTo(c: Config, open: Openings, item: Item, w: Waiting)
  {
    && item == Item(w.text, w.depth)
    && (open(w.text).Opened? ==>
          open(w.text) == Opened(w.children) && Truthful(c, open, w.children, w.text, w.depth))
  }

  ghost predicate Leads(c: Config, open: Openings, items: seq<Item>, stack: seq<Waiting>)
  {
    && |items| == |stack|
    && forall i | 0 <= i < |stack| :: LeadsTo(c, open, items[i], stack[i])
  }

  ghost predicate Tracks(c: Config, open: Openings, rest: seq<Entry>, text: string, depth: nat,
                         items: seq<Item>, stack: seq<Waiting>)
  {
    Truthful(c, open, rest, text, depth) && Leads(c, open, items, stack)
  }

  lemma JudgeLeads(c: Config, open: Openings, rest: seq<Entry>, text: string, depth: nat,
                   items: seq<Item>, stack: seq<Waiting>)
    requires Tracks(c, open, rest, text, depth, items, stack) && rest != []
    ensures var (events, next) := Step(c, open, At(rest, text, depth, items));
            && events == EventOf(Judge(c, rest[0], text, depth, |stack|).0)
            && next == At(rest[1..], text, depth, next.stack)
            && Tracks(c, open, rest[1..], text, depth, next.stack, Pushed(c, open, rest[0], text, depth, stack))
  {
    var e := rest[0];
    if Judge(c, e, text, depth, |stack|).1 {
      var path := Child(text, View(c, e.name).value);
      assert TruthfulEntry(c, open, e, text, depth);
      assert LeadsTo(c, open, Item(path, depth + 1), WaitingFor(open, path, depth + 1, e.children));
    }
  }

  lemma PopLeads(c: Config, open: Openings, text: string, depth: nat, items: seq<Item>, stack: seq<Waiting>)
    requires c.recursive && Leads(c, open, items, stack) && stack != []
    ensures var w := stack[|stack| - 1];
            var (events, next) := Step(c, open, At([], text, depth, items));
            && Leads(c, open, items[..|items| - 1], stack[..|stack| - 1])
            && (if open(w.text).Opened?
                then events == [] && next == At(w.children, w.text, w.depth, items[..|items| - 1])
                     && Truthful(c, open, w.children, w.text, w.depth)
                else events == [Failed(OpenError(open(w.text)))] && next == Lost)
  {
    assert LeadsTo(c, open, items[|stack| - 1], stack[|stack| - 1]);
  }

  function Weight(rest: seq<Entry>, stack: seq<Waiting>): nat
  {
    2 * (Size(rest) + StackSize(stack)) + |stack|
  }

  lemma PushWeighs(c: Config, open: Openings, e: Entry, text: string, depth: nat, stack: seq<Waiting>,
                   rest: seq<Entry>)
    ensures Weight(rest, Pushed(c, open, e, text, depth, stack)) < Weight([e] + rest, stack)
  {
    PushShrinks(c, open, e, text, depth, stack, rest);
  }

  lemma PopWeighs(c: Config, open: Openings, text: string, depth: nat, stack: seq<Waiting>)
    requires c.recursive && stack != []
    ensures var w, below := stack[|stack| - 1], stack[..|stack| - 1];
            && Size(w.children) + StackSize(below) == Size([]) + StackSize(stack)
            && Events(c, open, [], text, depth, stack) ==
               if open(w.text).Opened? then Events(c, open, w.children, w.text, w.depth, below)
               else [Failed(OpenError(open(w.text)))]
  {
  }

  lemma RunUnfold(c: Config, open: Openings, p: Position, steps: nat)
    requires steps > 0
    ensures Run(c, open, p, steps) == Step(c, open, p).0 + Run(c, open, Step(c, open, p).1, steps - 1)
    ensures Step(c, open, p).0 == [] ==> Run(c, open, p, steps) == Run(c, open, Step(c, open, p).1, steps - 1)
  {
    assert [] + Run(c, open, Step(c, open, p).1, steps - 1) == Run(c, open, Step(c, open, p).1, steps - 1);
  }

  /** If no directory's path opens another, the walk by texts gives the events of the
      walk that remembers the directories themselves, and then, if one could not be
      opened, the answers of a walker without a handle. */
  lemma {:induction false} RunIsEvents(c: Config, open: Openings, rest: seq<Entry>, text: string, depth: nat,
                                       items: seq<Item>, stack: seq<Waiting>, steps: nat) returns (dead: nat)
    requires Tracks(c, open, rest, text, depth, items, stack) && steps >= Weight(rest, stack)
    ensures Run(c, open, At(rest, text, depth, items), steps) == Events(c, open, rest, text, depth, stack) + Dead(dead)
    decreases steps, 1
  {
    if rest != [] {
      dead := RunEntry(c, open, rest, text, depth, items, stack, steps);
    } else if c.recursive && stack != [] {
      dead := RunPop(c, open, text, depth, items, stack, steps);
    } else {
      RunStands(c, open, At(rest, text, depth, items), steps);
      dead := 0;
    }
  }

  lemma {:induction false} RunEntry(c: Config, open: Openings, rest: seq<Entry>, text: string, depth: nat,
                                    items: seq<Item>, stack: seq<Waiting>, steps: nat) returns (dead: nat)
    requires Tracks(c, open, rest, text, depth, items, stack) && steps >= Weight(rest, stack) && rest != []
    ensures Run(c, open, At(rest, text, depth, items), steps) == Events(c, open, rest, text, depth, stack) + Dead(dead)
    decreases steps, 0
  {
    var p := At(rest, text, depth, items);
    var next, waiting := Step(c, open, p).1, Pushed(c, open, rest[0], text, depth, stack);
    assert Weight(rest[1..], waiting) < Weight(rest, stack) by {
      PushWeighs(c, open, rest[0], text, depth, stack, rest[1..]);
      assert rest == [rest[0]] + rest[1..];
    }
    JudgeLeads(c, open, rest, text, depth, items, stack);
    dead := RunIsEvents(c, open, rest[1..], text, depth, next.stack, waiting, steps - 1);
    EventsUnfold(c, open, rest, text, depth, stack);
    RunUnfold(c, open, p, steps);
    Regrouped(Step(c, open, p).0, Events(c, open, rest[1..], text, depth, waiting), Dead(dead));
  }

  lemma {:induction false} RunPop(c: Config, open: Openings, text: string, depth: nat,
                                  items: seq<Item>, stack: seq<Waiting>, steps: nat) returns (dead: nat)
    requires Tracks(c, open, [], text, depth, items, stack) && steps >= Weight([], stack)
    requires c.recursive && stack != []
    ensures Run(c, open, At([], text, depth, items), steps) == Events(c, open, [], text, depth, stack) + Dead(dead)
    decreases steps, 0
  {
    var w, below := stack[|stack| - 1], stack[..|stack| - 1];
    PopLeads(c, open, text, depth, items, stack);
    PopWeighs(c, open, text, depth, stack);
    if open(w.text).Opened? {
      dead := RunIsEvents(c, open, w.children, w.text, w.depth, items[..|items| - 1], below, steps - 1);
      RunUnfold(c, open, At([], text, depth, items), steps);
    } else {
      dead := steps - 1;
      RunFails(c, open, At([], text, depth, items), steps, Failed(OpenError(open(w.text))));
    }
  }

  lemma RunFails(c: Config, open: Openings, p: Position, steps: nat, error: Event)
    requires steps > 0 && Step(c, open, p) == ([error], Lost)
    ensures Run(c, open, p, steps) == [error] + Dead(steps - 1)
  {
    RunUnfold(c, open, p, steps);
    RunLost(c, open, steps - 1);
  }

  lemma {:induction false} RunLost(c: Config, open: Openings, steps: nat)
    ensures Run(c, open, Lost, steps) == Dead(steps)
  {
    if steps > 0 {
      RunLost(c, open, steps - 1);
    }
  }

  lemma {:induction false} RunStands(c: Config, open: Openings, p: Position, steps: nat)
    requires p.At? && p.rest == [] && (p.stack == [] || !c.recursive)
    ensures Run(c, open, p, steps) == []
  {
    if steps > 0 {
      RunStands(c, open, p, steps - 1);
    }
  }

  lemma Regrouped(a: seq<Event>, b: seq<Event>, d: seq<Event>)
    ensures a + (b + d) == a + b + d
  {
  }

  lemma DeadFails(events: seq<Event>, dead: nat)
    ensures dead > 0 ==> !NoErrors(events + Dead(dead))
    ensures dead == 0 ==> events + Dead(dead) == events
  {
    if dead > 0 {
      assert (events + Dead(dead))[|events|] == Dead(dead)[0] == Failed(BadHandle);
    }
  }

  /** The walk from a directory that its path leads to, when no path of a directory it
      enters leads elsewhere: with enough steps, all the allowed entries below it, each
      once, unless an error is among the events. A refused path is such an error. */
  lemma RunIsComplete(c: Config, root: seq<Entry>, start: string, steps: nat)
    requires NameLaw(c) && WellFormed(root) && Open(c, root, start).Opened?
    requires var here := Open(c, root, start).entries;
             Honest(c, here, start, 0) && steps >= 2 * Size(here)
    ensures var here := Open(c, root, start).entries;
            var events := Run(c, Opener(c, root), At(here, start, 0, []), steps);
            NoErrors(events) ==>
              && events == Events(c, Opener(c, root), here, start, 0, [])
              && Results(events) == Allowed(c, here, start, 0)
              && forall o | o in Allowed(c, here, start, 0) :: Allowed(c, here, start, 0)[o] == 1
  {
    var names := StoreTarget(c.naming, start).value;
    var here := Lookup(root, names).value;
    LookupInside(root, names);
    HonestIsTruthful(c, root, here, start, 0);
    var dead := RunIsEvents(c, Opener(c, root), here, start, 0, [], [], steps);
    var events := Events(c, Opener(c, root), here, start, 0, []);
    DeadFails(events, dead);
    if NoErrors(events + Dead(dead)) {
      CompleteWalk(c, Opener(c, root), here, start);
    }
  }

  // ------------------------------------------------- a directory that is not found

  /** A walk of everything, under the stored names. */
  function Everything(): Config
  {
    Config(true, true, false, false, 0, 0, (name, isDir) => false, (name, isDir) => false, Plain)
  }

  /** A directory `x` that holds a directory `y` with a file, beside a directory
      whose name is the two around a backslash. */
  function Tangled(x: string, y: string, f: string, g: string): seq<Entry>
  {
    [DirEntry(x, [DirEntry(y, [FileEntry(f)])]), DirEntry(x + "\\" + y, [FileEntry(g)])]
  }

  lemma TangledIsTree(x: string, y: string, f: string, g: string)
    requires PlainName(x) && PlainName(y) && PlainName(f) && PlainName(g)
    ensures WellFormed(Tangled(x, y, f, g)) && x != x + "\\" + y
  {
    var root := Tangled(x, y, f, g);
    assert |x| < |x + "\\" + y|;
    assert (x + "\\" + y)[|x|] == '\\';
    assert root[1..] == [DirEntry(x + "\\" + y, [FileEntry(g)])];
    assert WellFormed([FileEntry(f)]) && WellFormed([FileEntry(g)]);
    assert WellFormed([DirEntry(y, [FileEntry(f)])]);
  }

  lemma LookupTwo(x: string, y: string, inner: seq<Entry>, other: Entry)
    ensures var root := [DirEntry(x, [DirEntry(y, inner)]), other];
            Lookup(root, [x]) == Some([DirEntry(y, inner)]) && Lookup(root, [x, y]) == Some(inner)
  {
    var top, below := DirEntry(x, [DirEntry(y, inner)]), DirEntry(y, inner);
    assert [x][1..] == [] && [x, y][1..] == [y] && [y][1..] == [];
    assert Lookup([top, other], [x]) == Lookup([below], []);
    assert Lookup([top, other], [x, y]) == Lookup([below], [y]);
    assert Lookup([below], [y]) == Lookup(inner, []);
  }

  /** The path of the second directory opens the inner one. */
  lemma TangledOpens(x: string, y: string, f: string, g: string)
    requires PlainPath([x, y])
    ensures var root := Tangled(x, y, f, g);
            && Open(Everything(), root, x) == Opened([DirEntry(y, [FileEntry(f)])])
            && Open(Everything(), root, Child(x, y)) == Opened([FileEntry(f)])
            && Open(Everything(), root, x + "\\" + y) == Opened([FileEntry(f)])
  {
    BackslashSplits(x, y);
    StoreTargetOfView(Plain, x);
    StoreTargetOfView(Plain, Child(x, y));
    StoreTargetOfView(Plain, x + "\\" + y);
    assert PlainPath([x]) by {
      assert PlainName([x, y][0]);
    }
    JoinedLeadsBack([x]);
    assert PathClean.Join([x], '/') == x;
    LookupTwo(x, y, [FileEntry(f)], DirEntry(x + "\\" + y, [FileEntry(g)]));
  }

  lemma StepEntry(open: Openings, e: Entry, rest: seq<Entry>, text: string, depth: nat, stack: seq<Item>)
    requires |stack| < DEFAULT_PENDING
    ensures Step(Everything(), open, At([e] + rest, text, depth, stack))
         == ([Returned(Found(Child(text, e.name), e.DirEntry?))],
             At(rest, text, depth, if e.DirEntry? then stack + [Item(Child(text, e.name), depth + 1)] else stack))
  {
    assert Judge(Everything(), e, text, depth, |stack|)
        == (Return(Found(Child(text, e.name), e.DirEntry?)), e.DirEntry?);
    assert ([e] + rest)[1..] == rest;
    assert stack + [] == stack;
  }

  lemma StepOpen(open: Openings, text: string, depth: nat, stack: seq<Item>, top: Item, entries: seq<Entry>)
    requires open(top.text) == Opened(entries)
    ensures Step(Everything(), open, At([], text, depth, stack + [top]))
         == ([], At(entries, top.text, top.depth, stack))
  {
    assert (stack + [top])[..|stack|] == stack;
  }

  lemma RunOne(open: Openings, e: Entry, rest: seq<Entry>, text: string, depth: nat,
               stack: seq<Item>, steps: nat)
    requires |stack| < DEFAULT_PENDING && steps >= 1
    ensures Run(Everything(), open, At([e] + rest, text, depth, stack), steps)
         == [Returned(Found(Child(text, e.name), e.DirEntry?))]
            + Run(Everything(), open,
                  At(rest, text, depth, if e.DirEntry? then stack + [Item(Child(text, e.name), depth + 1)] else stack),
                  steps - 1)
  {
    StepEntry(open, e, rest, text, depth, stack);
    RunUnfold(Everything(), open, At([e] + rest, text, depth, stack), steps);
  }

  /** Entering one directory from the stack and returning its only entry. */
  lemma RunOnly(open: Openings, text: string, depth: nat, stack: seq<Item>, top: Item, e: Entry, steps: nat)
    requires open(top.text) == Opened([e]) && |stack| < DEFAULT_PENDING && steps >= 2
    ensures Run(Everything(), open, At([], text, depth, stack + [top]), steps)
         == [Returned(Found(Child(top.text, e.name), e.DirEntry?))]
            + Run(Everything(), open,
                  At([], top.text, top.depth,
                     if e.DirEntry? then stack + [Item(Child(top.text, e.name), top.depth + 1)] else stack), steps - 2)
  {
    StepOpen(open, text, depth, stack, top, [e]);
    RunUnfold(Everything(), open, At([], text, depth, stack + [top]), steps);
    assert [e] + [] == [e];
    RunOne(open, e, [], top.text, top.depth, stack, steps - 1);
  }

  lemma TwoEntries(open: Openings, a: Entry, b: Entry, steps: nat)
    requires a.DirEntry? && b.DirEntry? && steps >= 2
    ensures Run(Everything(), open, At([a, b], "", 0, []), steps)
         == [Returned(Found(a.name, true))]
            + ([Returned(Found(b.name, true))]
               + Run(Everything(), open, At([], "", 0, [Item(a.name, 1), Item(b.name, 1)]), steps - 2))
  {
    assert [] + [Item(a.name, 1)] == [Item(a.name, 1)];
    assert [Item(a.name, 1)] + [Item(b.name, 1)] == [Item(a.name, 1), Item(b.name, 1)];
    assert [a] + [b] == [a, b] && [b] + [] == [b];
    RunOne(open, a, [b], "", 0, [], steps);
    RunOne(open, b, [], "", 0, [Item(a.name, 1)], steps - 1);
  }

  /** What a walk returns that finds a file `f` both at `other` and at `y` in `x`. */
  lemma RunTwice(open: Openings, x: string, y: string, other: string, f: string, steps: nat)
    requires open(x) == Opened([DirEntry(y, [FileEntry(f)])])
    requires open(Child(x, y)) == open(other) == Opened([FileEntry(f)])
    requires steps >= 6
    ensures Run(Everything(), open, At([], "", 0, [Item(x, 1), Item(other, 1)]), steps)
         == [Returned(Found(Child(other, f), false))]
            + [Returned(Found(Child(x, y), true))]
            + [Returned(Found(Child(Child(x, y), f), false))]
  {
    assert [Item(x, 1)] + [Item(other, 1)] == [Item(x, 1), Item(other, 1)];
    RunOnly(open, "", 0, [Item(x, 1)], Item(other, 1), FileEntry(f), steps);
    RunInner(open, x, y, other, f, steps - 2);
    Regrouped([Returned(Found(Child(other, f), false))], [Returned(Found(Child(x, y), true))],
              [Returned(Found(Child(Child(x, y), f), false))]);
  }

  lemma RunInner(open: Openings, x: string, y: string, text: string, f: string, steps: nat)
    requires open(x) == Opened([DirEntry(y, [FileEntry(f)])])
    requires open(Child(x, y)) == Opened([FileEntry(f)])
    requires steps >= 4
    ensures Run(Everything(), open, At([], text, 1, [Item(x, 1)]), steps)
         == [Returned(Found(Child(x, y), true))] + [Returned(Found(Child(Child(x, y), f), false))]
  {
    var top := Item(Child(x, y), 2);
    assert [] + [Item(x, 1)] == [Item(x, 1)] && [] + [top] == [top];
    RunOnly(open, text, 1, [], Item(x, 1), DirEntry(y, [FileEntry(f)]), steps);
    RunOnly(open, x, 1, [], top, FileEntry(f), steps - 2);
    RunStands(Everything(), open, At([], Child(x, y), 2, []), steps - 4);
  }

  /** The events of a walk that takes one directory for another. */
  function Twice(x: string, y: string, other: string, f: string): seq<Event>
  {
    [Returned(Found(x, true))]
    + ([Returned(Found(other, true))]
       + ([Returned(Found(Child(other, f), false))]
          + [Returned(Found(Child(x, y), true))]
          + [Returned(Found(Child(Child(x, y), f), false))]))
  }

  lemma RunTop(open: Openings, x: Entry, y: string, other: Entry, f: string, steps: nat)
    requires open(x.name) == Opened([DirEntry(y, [FileEntry(f)])]) && x.DirEntry? && other.DirEntry?
    requires open(Child(x.name, y)) == open(other.name) == Opened([FileEntry(f)])
    requires steps >= 8
    ensures Run(Everything(), open, At([x, other], "", 0, []), steps) == Twice(x.name, y, other.name, f)
  {
    TwoEntries(open, x, other, steps);
    RunTwice(open, x.name, y, other.name, f, steps - 2);
  }

  /** The walk of the tangled tree returns the same file under two paths, never the
      other one, and reports nothing. */
  lemma TangledWalk(x: string, y: string, f: string, g: string, steps: nat)
    requires PlainPath([x, y]) && steps >= 8
    ensures var root := Tangled(x, y, f, g);
            Run(Everything(), Opener(Everything(), root), At(root, "", 0, []), steps)
            == Twice(x, y, x + "\\" + y, f)
  {
    var root := Tangled(x, y, f, g);
    TangledOpens(x, y, f, g);
    RunTop(Opener(Everything(), root), root[0], y, root[1], f, steps);
  }

  lemma TwiceHasNot(x: string, y: string, other: string, f: string, lost: Found)
    requires !lost.isDir && lost.path != Child(other, f) && lost.path != Child(Child(x, y), f)
    ensures NoErrors(Twice(x, y, other, f)) && Returned(lost) !in Twice(x, y, other, f)
  {
  }

  /** So honest paths are needed: the tree is well formed, all its names decipher,
      no error comes, and a file that is allowed is missing. */
  lemma TangledLosesFile(x: string, y: string, f: string, g: string, steps: nat)
    requires PlainPath([x, y]) && PlainName(f) && PlainName(g) && f != g && steps >= 8
    ensures var c, root := Everything(), Tangled(x, y, f, g);
            var events := Run(c, Opener(c, root), At(root, "", 0, []), steps);
            var lost := Found(Child(x + "\\" + y, g), false);
            && NameLaw(c) && WellFormed(root) && AllDecrypt(c, root) && !Honest(c, root, "", 0)
            && NoErrors(events) && lost in Allowed(c, root, "", 0) && Returned(lost) !in events
  {
    TangledShape(x, y, f, g);
    TangledAllows(x, y, f, g);
    TangledIsSilent(x, y, f, g, steps);
  }

  lemma TangledIsSilent(x: string, y: string, f: string, g: string, steps: nat)
    requires PlainPath([x, y]) && f != g && steps >= 8
    ensures var root := Tangled(x, y, f, g);
            var events := Run(Everything(), Opener(Everything(), root), At(root, "", 0, []), steps);
            NoErrors(events) && Returned(Found(Child(x + "\\" + y, g), false)) !in events
  {
    TangledWalk(x, y, f, g, steps);
    assert PlainName([x, y][0]);
    TangledPathsDiffer(x, y, f, g);
    TwiceHasNot(x, y, x + "\\" + y, f, Found(Child(x + "\\" + y, g), false));
  }

  lemma TangledShape(x: string, y: string, f: string, g: string)
    requires PlainPath([x, y]) && PlainName(f) && PlainName(g)
    ensures var c, root := Everything(), Tangled(x, y, f, g);
            NameLaw(c) && WellFormed(root) && AllDecrypt(c, root) && !Honest(c, root, "", 0)
  {
    var c, root, other := Everything(), Tangled(x, y, f, g), x + "\\" + y;
    assert PlainName(x) && PlainName(y) by {
      assert PlainName([x, y][0]) && PlainName([x, y][1]);
    }
    TangledIsTree(x, y, f, g);
    assert root[1..] == [root[1]];
    assert AllDecrypt(c, [FileEntry(f)]) && AllDecrypt(c, [FileEntry(g)]);
    assert AllDecrypt(c, root[0].children);
    BackslashSplits(x, y);
    assert Child("", other) == other && ViewTarget(other) != Some(ViewTarget("").value + [other]);
    assert !HonestName("", other);
    assert !Honest(c, [root[1]], "", 0);
  }

  lemma TangledAllows(x: string, y: string, f: string, g: string)
    ensures Found(Child(x + "\\" + y, g), false) in Allowed(Everything(), Tangled(x, y, f, g), "", 0)
  {
    var c, root, other := Everything(), Tangled(x, y, f, g), x + "\\" + y;
    var lost := Found(Child(other, g), false);
    assert root[1..] == [root[1]];
    assert lost in AllowedEntry(c, FileEntry(g), other, 1);
    assert lost in Allowed(c, [FileEntry(g)], other, 1);
    assert lost in AllowedEntry(c, root[1], "", 0);
    assert lost in Allowed(c, root[1..], "", 0);
  }

  lemma TangledPathsDiffer(x: string, y: string, f: string, g: string)
    requires x != "" && f != g
    ensures var other := x + "\\" + y;
            Child(other, g) != Child(other, f) && Child(other, g) != Child(Child(x, y), f)
  {
    var other := x + "\\" + y;
    assert Child(other, g)[|other| + 1..] == g && Child(other, f)[|other| + 1..] == f;
    assert Child(other, g)[|x|] == '\\' && Child(Child(x, y), f)[|x|] == '/';
  }

  // ----------------------------------------- which names are walked right in every tree

  /** Apart from the name `n` at the top no directory's path leads elsewhere. */
  predicate HonestBut(c: Config, root: seq<Entry>, n: string)
  {
    forall e | e in root ::
      HonestEntry(c, e, "", 0) || (View(c, e.name) == Some(n) && (HonestName("", n) ==> HonestBelow(c, e, n, 0)))
  }

  /** In every tree with this name at the top, a walk without errors is complete. */
  ghost predicate WalkedRight(n: string)
  {
    forall c, root, steps: nat | NameLaw(c) && WellFormed(root) && HonestBut(c, root, n) && steps >= 2 * Size(root) ::
      CompleteOrError(c, root, steps)
  }

  ghost predicate CompleteOrError(c: Config, root: seq<Entry>, steps: nat)
  {
    var events := Run(c, Opener(c, root), At(root, "", 0, []), steps);
    NoErrors(events) ==> Results(events) == Allowed(c, root, "", 0)
  }

  /** Exactly the names whose path is refused or leads to themselves are walked right,
      or with an error, wherever they stand at the top of a tree. */
  lemma WalkedRightIffHonest(n: string)
    requires Genuine(n)
    ensures WalkedRight(n) <==> ViewTarget(n).None? || ViewTarget(n) == Some([n])
  {
    assert ViewTarget("") == Some([]) && [] + [n] == [n] && Child("", n) == n;
    if HonestName("", n) {
      forall c, root, steps: nat | NameLaw(c) && WellFormed(root) && HonestBut(c, root, n) && steps >= 2 * Size(root)
        ensures CompleteOrError(c, root, steps)
      {
        HonestButHonest(c, root, root, n);
        assert Lookup(root, []) == Some(root);
        StoreTargetOfView(c.naming, "");
        RunIsComplete(c, root, "", steps);
      }
    } else if ViewTarget(n).value == [] {
      WalksInCircles(n);
    } else {
      WalksElsewhere(n, ViewTarget(n).value);
    }
  }

  lemma {:induction false} HonestButHonest(c: Config, root: seq<Entry>, rest: seq<Entry>, n: string)
    requires HonestBut(c, root, n) && HonestName("", n) && forall e | e in rest :: e in root
    ensures Honest(c, rest, "", 0)
    decreases rest
  {
    if rest != [] {
      assert rest[0] in rest;
      HonestButHonest(c, root, rest[1..], n);
    }
  }

  lemma Incomplete(c: Config, root: seq<Entry>, steps: nat, o: Found)
    requires var events := Run(c, Opener(c, root), At(root, "", 0, []), steps);
             NoErrors(events) && (o in Allowed(c, root, "", 0) <==> o !in Results(events))
    ensures !CompleteOrError(c, root, steps)
  {
  }

  /** A name that leads back to the top, like "a\\..", is entered as the top itself. */
  lemma WalksInCircles(n: string)
    requires Genuine(n) && ViewTarget(n) == Some([])
    ensures !WalkedRight(n)
  {
    var c, root := Everything(), [DirEntry(n, [])];
    CircleIsTree(n);
    var steps := 3;
    CircleRun(Opener(c, root), root[0], steps);
    TwoReturned(Found(n, true), Found(Child(n, n), true));
    CircleAllowed(n);
    assert Size(root) == 1;
    Incomplete(c, root, steps, Found(Child(n, n), true));
  }

  lemma CircleIsTree(n: string)
    requires Genuine(n) && ViewTarget(n) == Some([])
    ensures var c, root := Everything(), [DirEntry(n, [])];
            NameLaw(c) && WellFormed(root) && HonestBut(c, root, n) && Open(c, root, n) == Opened(root)
  {
    var root := [DirEntry(n, [])];
    StoreTargetOfView(Plain, n);
    assert root[1..] == [] && Child("", n) == n;
    assert !HonestName("", n);
  }

  lemma RunFirst(open: Openings, e: Entry, steps: nat)
    requires e.DirEntry? && steps >= 1
    ensures Run(Everything(), open, At([e], "", 0, []), steps)
         == [Returned(Found(e.name, true))] + Run(Everything(), open, At([], "", 0, [Item(e.name, 1)]), steps - 1)
  {
    var none: seq<Item> := [];
    assert [e] + [] == [e] && none + [Item(e.name, 1)] == [Item(e.name, 1)] && Child("", e.name) == e.name;
    RunOne(open, e, [], "", 0, none, steps);
  }

  lemma RunSecond(open: Openings, item: Item, e: Entry, steps: nat)
    requires e.DirEntry? && open(item.text) == Opened([e]) && steps >= 2
    ensures Run(Everything(), open, At([], "", 0, [item]), steps)
         == [Returned(Found(Child(item.text, e.name), true))]
            + Run(Everything(), open, At([], item.text, item.depth, [Item(Child(item.text, e.name), item.depth + 1)]),
                  steps - 2)
  {
    var none: seq<Item> := [];
    var next := Item(Child(item.text, e.name), item.depth + 1);
    assert none + [item] == [item] && none + [next] == [next];
    RunOnly(open, "", 0, none, item, e, steps);
  }

  lemma TwoReturned(a: Found, b: Found)
    ensures NoErrors([Returned(a)] + ([Returned(b)] + []))
    ensures b in Results([Returned(a)] + ([Returned(b)] + []))
  {
    var events := [Returned(a)] + ([Returned(b)] + []);
    assert events[1..] == [Returned(b)] && [Returned(b)][1..] == [];
    assert Results(events[1..]) == multiset{b} + Results([]);
  }

  lemma CircleRun(open: Openings, e: Entry, steps: nat)
    requires e.DirEntry? && open(e.name) == Opened([e]) && steps == 3
    ensures Run(Everything(), open, At([e], "", 0, []), steps)
         == [Returned(Found(e.name, true))] + ([Returned(Found(Child(e.name, e.name), true))] + [])
  {
    RunFirst(open, e, steps);
    RunSecond(open, Item(e.name, 1), e, steps - 1);
  }

  lemma CircleAllowed(n: string)
    requires n != ""
    ensures Found(Child(n, n), true) !in Allowed(Everything(), [DirEntry(n, [])], "", 0)
  {
    var c, e := Everything(), DirEntry(n, []);
    assert [e][1..] == [];
    assert Allowed(c, [e], "", 0) == AllowedEntry(c, e, "", 0) + Allowed(c, [], "", 0);
    assert |Child(n, n)| > |n|;
  }

  /** A walk that passes over directories of one stored name. */
  function Skipping(skip: string): Config
  {
    Config(true, true, false, false, 0, 0, (name, isDir) => isDir && name == skip, (name, isDir) => false, Plain)
  }

  /** Directories in one another, the last one empty. */
  function Chain(names: seq<string>): seq<Entry>
  {
    if names == [] then [] else [DirEntry(names[0], Chain(names[1..]))]
  }

  lemma {:induction false} ChainLeads(names: seq<string>)
    requires AllNames(names)
    ensures WellFormed(Chain(names)) && Lookup(Chain(names), names) == Some([])
  {
    if names != [] {
      assert AllNames(names[1..]);
      ChainLeads(names[1..]);
      assert Name(names[0]) && Genuine(names[0]);
    }
  }

  /** The directory that `n` is taken for, empty, beside the directory `n` with a file. */
  function Misled(q: seq<string>, n: string): seq<Entry>
    requires q != []
  {
    [DirEntry(q[0], Chain(q[1..])), DirEntry(n, [FileEntry("g")])]
  }

  /** A name that leads elsewhere loses what is below it. */
  lemma WalksElsewhere(n: string, q: seq<string>)
    requires Genuine(n) && ViewTarget(n) == Some(q) && q != [] && q != [n]
    ensures !WalkedRight(n)
  {
    var c, root := Skipping(q[0]), Misled(q, n);
    MisledIsTree(n, q);
    MisledOpens(n, q);
    assert Child("", n) == n;
    assert !HonestName("", n);
    assert HonestBut(c, root, n);
    var steps := 3 + 2 * Size(root);
    SkipRun(Opener(c, root), root[0], root[1], steps);
    MisledAllows(n, q);
    Incomplete(c, root, steps, Found(Child(n, "g"), false));
  }

  lemma MisledIsTree(n: string, q: seq<string>)
    requires Genuine(n) && ViewTarget(n) == Some(q) && q != [] && q != [n]
    ensures WellFormed(Misled(q, n)) && q[0] != n
  {
    TargetIsNormal(n);
    assert AllNames(q[1..]) && Name(q[0]);
    ChainLeads(q[1..]);
    assert Child("", n) == n && [] + [n] == [n];
    if q[0] == n {
      NameIsHonest("", n);
    }
    var root := Misled(q, n);
    assert root[1..] == [root[1]] && root[1..][1..] == [];
    assert WellFormed([FileEntry("g")]);
  }

  lemma MisledOpens(n: string, q: seq<string>)
    requires ViewTarget(n) == Some(q) && q != []
    ensures Open(Skipping(q[0]), Misled(q, n), n) == Opened([])
  {
    StoreTargetOfView(Plain, n);
    TargetIsNormal(n);
    assert AllNames(q[1..]);
    ChainLeads(q[1..]);
    assert Lookup(Misled(q, n), q) == Lookup(Chain(q[1..]), q[1..]);
  }

  lemma SkipRun(open: Openings, a: Entry, b: Entry, steps: nat)
    requires a.name != b.name && a.DirEntry? && b.DirEntry? && open(b.name) == Opened([]) && steps >= 3
    ensures Run(Skipping(a.name), open, At([a, b], "", 0, []), steps) == [Returned(Found(b.name, true))]
  {
    var c, found := Skipping(a.name), Returned(Found(b.name, true));
    assert [a, b][1..] == [b] && [b][1..] == [] && [] + [Item(b.name, 1)] == [Item(b.name, 1)];
    assert Child("", b.name) == b.name;
    var none: seq<Item> := [];
    assert Judge(c, a, "", 0, 0) == (Skip, false) && none + none == none;
    assert Step(c, open, At([a, b], "", 0, [])) == ([], At([b], "", 0, []));
    RunUnfold(c, open, At([a, b], "", 0, []), steps);
    assert Step(c, open, At([b], "", 0, [])) == ([found], At([], "", 0, [Item(b.name, 1)]));
    RunUnfold(c, open, At([b], "", 0, []), steps - 1);
    assert Step(c, open, At([], "", 0, [Item(b.name, 1)])) == ([], At([], b.name, 1, []));
    RunUnfold(c, open, At([], "", 0, [Item(b.name, 1)]), steps - 2);
    RunStands(c, open, At([], b.name, 1, []), steps - 3);
  }

  lemma MisledAllows(n: string, q: seq<string>)
    requires q != [] && q[0] != n && n != ""
    ensures var lost := Found(Child(n, "g"), false);
            lost in Allowed(Skipping(q[0]), Misled(q, n), "", 0) && lost !in Results([Returned(Found(n, true))])
  {
    var c, root := Skipping(q[0]), Misled(q, n);
    var lost := Found(Child(n, "g"), false);
    assert root[1..] == [root[1]];
    assert lost in AllowedEntry(c, FileEntry("g"), n, 1);
    assert lost in Allowed(c, [FileEntry("g")], n, 1);
    assert Child("", n) == n;
    assert lost in AllowedEntry(c, root[1], "", 0);
    assert lost in Allowed(c, root[1..], "", 0);
    assert [Returned(Found(n, true))][1..] == [];
  }
}
