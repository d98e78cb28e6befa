/** What a recursive walk of a fixed directory tree should return: first as the
    traversal the walker performs, then as a plain recursion over the tree. */
module WalkSpec {
  import opened NamePaths
  import opened StorePath
  import opened Wrappers

  /** A directory entry under its stored name. */
  datatype Entry = FileEntry(name: string) | DirEntry(name: string, children: seq<Entry>)

  /** The walk options, the two ignore hooks and the name cipher of the root. */
  datatype Config = Config(
    recursive: bool,
    includeHidden: bool,
    skipFiles: bool,
    skipDirs: bool,
    maxDepth: nat,
    maxPendingDirectories: int,
    ignoreStored: (string, bool) -> bool,
    ignoreView: (string, bool) -> bool,
    naming: Naming)

  /** The name an entry is shown under, or nothing where it does not decipher. */
  function View(c: Config, name: string): Option<string>
  {
    if c.naming.Plain? then Some(name)
    else match c.naming.cipher.decrypt(name)
         case Done(view) => Some(view)
         case _ => None
  }

  /** What the walk returns: the view path, joined with '/'. */
  datatype Found = Found(path: string, isDir: bool)

  datatype WalkError = Corrupted | WorkLimit | BadName | NotFound | BadHandle | WalkerClosed | SeekFailed

  datatype Event = Returned(found: Found) | Failed(error: WalkError)

  const DEFAULT_PENDING: nat := 1024
  const MAXIMUM_PENDING: nat := 4096

  function PendingLimit(c: Config): nat
  {
    if c.maxPendingDirectories < 1 then DEFAULT_PENDING
    else if c.maxPendingDirectories > MAXIMUM_PENDING then MAXIMUM_PENDING
    else c.maxPendingDirectories
  }

  /** The entry gets past the ignore hooks and the hidden filter. */
  predicate Passes(c: Config, e: Entry)
  {
    && !c.ignoreStored(e.name, e.DirEntry?)
    && View(c, e.name).Some?
    && var view := View(c, e.name).value;
       && (c.includeHidden || view == "" || view[0] != '.')
       && !c.ignoreView(view, e.DirEntry?)
  }

  predicate Descends(c: Config, e: Entry, depth: nat)
  {
    e.DirEntry? && c.recursive && (c.maxDepth == 0 || depth < c.maxDepth)
  }

  predicate Shown(c: Config, e: Entry)
  {
    !(c.skipFiles && e.FileEntry?) && !(c.skipDirs && e.DirEntry?)
  }

  // -------------------------------------------------------------- traversal

  /** What opening a directory by its view path finds: the path is refused, nothing is
      there, or some entries are. */
  datatype Opening = Refused | Missing | Opened(entries: seq<Entry>)

  type Openings = string -> Opening

  function OpenError(o: Opening): WalkError
  {
    if o.Refused? then BadName else NotFound
  }

  datatype Verdict = Skip | Return(found: Found) | Fail(error: WalkError)

  /** What becomes of one entry of the directory at `text`, with so many
      directories already waiting, and whether it has to wait as well. */
  function Judge(c: Config, e: Entry, text: string, depth: nat, pending: nat): (Verdict, bool)
  {
    if c.ignoreStored(e.name, e.DirEntry?) then (Skip, false)
    else if View(c, e.name).None? then (Fail(Corrupted), false)
    else if !Passes(c, e) then (Skip, false)
    else if Descends(c, e, depth) && pending >= PendingLimit(c) then (Fail(WorkLimit), false)
    else
      (if Shown(c, e) then Return(Found(Child(text, View(c, e.name).value), e.DirEntry?)) else Skip,
       Descends(c, e, depth))
  }

  /** A directory that waits to be read. */
  datatype Waiting = Waiting(text: string, depth: nat, children: seq<Entry>)

  function Size(entries: seq<Entry>): nat
  {
    if entries == [] then 0
    else 1 + (if entries[0].DirEntry? then Size(entries[0].children) else 0) + Size(entries[1..])
  }

  function StackSize(stack: seq<Waiting>): nat
  {
    if stack == [] then 0 else StackSize(stack[..|stack| - 1]) + Size(stack[|stack| - 1].children)
  }

  lemma StackSizePush(stack: seq<Waiting>, w: Waiting)
    ensures StackSize(stack + [w]) == StackSize(stack) + Size(w.children)
  {
    assert (stack + [w])[..|stack|] == stack;
  }

  /** A directory that cannot be opened when its turn comes has nothing to be read. */
  function WaitingFor(open: Openings, text: string, depth: nat, children: seq<Entry>): Waiting
  {
    Waiting(text, depth, if open(text).Opened? then children else [])
  }

  function Pushed(c: Config, open: Openings, e: Entry, text: string, depth: nat, stack: seq<Waiting>): seq<Waiting>
  {
    if Judge(c, e, text, depth, |stack|).1
    then stack + [WaitingFor(open, Child(text, View(c, e.name).value), depth + 1, e.children)]
    else stack
  }

  lemma PushShrinks(c: Config, open: Openings, e: Entry, text: string, depth: nat,
                    stack: seq<Waiting>, rest: seq<Entry>)
    ensures Size(rest) + StackSize(Pushed(c, open, e, text, depth, stack)) < Size([e] + rest) + StackSize(stack)
  {
    assert ([e] + rest)[1..] == rest;
    if Judge(c, e, text, depth, |stack|).1 {
      StackSizePush(stack, WaitingFor(open, Child(text, View(c, e.name).value), depth + 1, e.children));
    }
  }

  function EventOf(v: Verdict): seq<Event>
  {
    match v
    case Skip => []
    case Return(found) => [Returned(found)]
    case Fail(error) => [Failed(error)]
  }

  /** Everything still to come, in order: the rest of the current directory,
      then the waiting directories, the last one first. A directory that cannot
      be opened is the last that is heard of the walk. */
  ghost function Events(c: Config, open: Openings, rest: seq<Entry>, text: string, depth: nat,
                        stack: seq<Waiting>): seq<Event>
    decreases Size(rest) + StackSize(stack), |stack|
  {
    if rest != [] then
      assert rest == [rest[0]] + rest[1..];
      PushShrinks(c, open, rest[0], text, depth, stack, rest[1..]);
      EventOf(Judge(c, rest[0], text, depth, |stack|).0)
      + Events(c, open, rest[1..], text, depth, Pushed(c, open, rest[0], text, depth, stack))
    else if c.recursive && stack != [] then
      var w := stack[|stack| - 1];
      if open(w.text).Opened? then Events(c, open, w.children, w.text, w.depth, stack[..|stack| - 1])
      else [Failed(OpenError(open(w.text)))]
    else []
  }

  // -------------------------------------------------------------- recursion

  /** Every entry the filters and the depth limit allow, with its multiplicity. */
  ghost function Allowed(c: Config, entries: seq<Entry>, text: string, depth: nat): multiset<Found>
  {
    if entries == [] then multiset{} else
    AllowedEntry(c, entries[0], text, depth) + Allowed(c, entries[1..], text, depth)
  }

  ghost function AllowedEntry(c: Config, e: Entry, text: string, depth: nat): multiset<Found>
  {
    if !Passes(c, e) then multiset{} else
    var p := Child(text, View(c, e.name).value);
    (if Shown(c, e) then multiset{Found(p, e.DirEntry?)} else multiset{})
    + (if Descends(c, e, depth) then Allowed(c, e.children, p, depth + 1) else multiset{})
  }

  ghost function AllowedWaiting(c: Config, stack: seq<Waiting>): multiset<Found>
  {
    if stack == [] then multiset{} else
    var w := stack[|stack| - 1];
    AllowedWaiting(c, stack[..|stack| - 1]) + Allowed(c, w.children, w.text, w.depth)
  }

  function Results(events: seq<Event>): (r: multiset<Found>)
  {
    if events == [] then multiset{} else
    (if events[0].Returned? then multiset{events[0].found} else multiset{}) + Results(events[1..])
  }

  predicate NoErrors(events: seq<Event>)
  {
    forall i | 0 <= i < |events| :: events[i].Returned?
  }

  lemma ResultsOfPrefix(v: Verdict, rest: seq<Event>)
    ensures Results(EventOf(v) + rest) == (if v.Return? then multiset{v.found} else multiset{}) + Results(rest)
    ensures NoErrors(EventOf(v) + rest) ==> !v.Fail? && NoErrors(rest)
  {
    var all := EventOf(v) + rest;
    if v == Skip {
      assert all == rest;
    } else {
      assert all[0] == EventOf(v)[0];
      assert all[1..] == rest;
      assert forall i | 0 <= i < |rest| :: rest[i] == all[i + 1];
    }
  }

  lemma WaitingPush(c: Config, stack: seq<Waiting>, w: Waiting)
    ensures AllowedWaiting(c, stack + [w]) == AllowedWaiting(c, stack) + Allowed(c, w.children, w.text, w.depth)
  {
    assert (stack + [w])[..|stack|] == stack;
  }

  ghost predicate CanOpen(open: Openings, stack: seq<Waiting>)
  {
    forall w | w in stack :: open(w.text).Opened?
  }

  lemma PushedOpens(c: Config, open: Openings, e: Entry, text: string, depth: nat, stack: seq<Waiting>)
    requires CanOpen(open, Pushed(c, open, e, text, depth, stack)) && Judge(c, e, text, depth, |stack|).1
    ensures var p := Child(text, View(c, e.name).value);
            open(p).Opened? && Pushed(c, open, e, text, depth, stack) == stack + [Waiting(p, depth + 1, e.children)]
  {
    var w := WaitingFor(open, Child(text, View(c, e.name).value), depth + 1, e.children);
    assert w in stack + [w];
  }

  /** One entry: what it contributes now, and what waits because of it. */
  lemma JudgeContributes(c: Config, open: Openings, e: Entry, text: string, depth: nat, stack: seq<Waiting>)
    requires !Judge(c, e, text, depth, |stack|).0.Fail? && CanOpen(open, Pushed(c, open, e, text, depth, stack))
    ensures var v := Judge(c, e, text, depth, |stack|).0;
            AllowedEntry(c, e, text, depth) + AllowedWaiting(c, stack)
            == (if v.Return? then multiset{v.found} else multiset{})
               + AllowedWaiting(c, Pushed(c, open, e, text, depth, stack))
  {
    if Passes(c, e) {
      var p := Child(text, View(c, e.name).value);
      var shown := if Shown(c, e) then multiset{Found(p, e.DirEntry?)} else multiset{};
      var waiting := AllowedWaiting(c, stack);
      if Descends(c, e, depth) {
        var below := Allowed(c, e.children, p, depth + 1);
        PushedOpens(c, open, e, text, depth, stack);
        WaitingPush(c, stack, Waiting(p, depth + 1, e.children));
        Regroup(shown, below, waiting);
      } else {
        assert AllowedEntry(c, e, text, depth) == shown;
      }
    }
  }

  lemma Regroup(a: multiset<Found>, b: multiset<Found>, d: multiset<Found>)
    ensures (a + b) + d == a + (d + b)
  {
  }

  lemma HeadAndTail(entry: multiset<Found>, tail: multiset<Found>, waiting: multiset<Found>,
                    now: multiset<Found>, later: multiset<Found>)
    requires entry + waiting == now + later
    ensures (entry + tail) + waiting == now + (tail + later)
  {
    assert (entry + tail) + waiting == (entry + waiting) + tail;
    assert now + (tail + later) == (now + later) + tail;
  }

  lemma EventsUnfold(c: Config, open: Openings, rest: seq<Entry>, text: string, depth: nat, stack: seq<Waiting>)
    requires rest != []
    ensures Events(c, open, rest, text, depth, stack)
            == EventOf(Judge(c, rest[0], text, depth, |stack|).0)
               + Events(c, open, rest[1..], text, depth, Pushed(c, open, rest[0], text, depth, stack))
    ensures Size(rest[1..]) + StackSize(Pushed(c, open, rest[0], text, depth, stack)) < Size(rest) + StackSize(stack)
  {
    assert rest == [rest[0]] + rest[1..];
    PushShrinks(c, open, rest[0], text, depth, stack, rest[1..]);
  }

  lemma HeadReturnsAllowed(c: Config, open: Openings, rest: seq<Entry>, text: string, depth: nat, stack: seq<Waiting>)
    requires rest != [] && !Judge(c, rest[0], text, depth, |stack|).0.Fail?
    requires CanOpen(open, Pushed(c, open, rest[0], text, depth, stack))
    requires var next := Pushed(c, open, rest[0], text, depth, stack);
             Results(Events(c, open, rest[1..], text, depth, next))
             == Allowed(c, rest[1..], text, depth) + AllowedWaiting(c, next)
    ensures Results(Events(c, open, rest, text, depth, stack))
         == Allowed(c, rest, text, depth) + AllowedWaiting(c, stack)
  {
    var e, tail := rest[0], rest[1..];
    var v := Judge(c, e, text, depth, |stack|).0;
    var next := Pushed(c, open, e, text, depth, stack);
    EventsUnfold(c, open, rest, text, depth, stack);
    ResultsOfPrefix(v, Events(c, open, tail, text, depth, next));
    JudgeContributes(c, open, e, text, depth, stack);
    HeadAndTail(AllowedEntry(c, e, text, depth), Allowed(c, tail, text, depth), AllowedWaiting(c, stack),
                if v.Return? then multiset{v.found} else multiset{}, AllowedWaiting(c, next));
  }

  lemma HeadNoErrors(c: Config, open: Openings, rest: seq<Entry>, text: string, depth: nat, stack: seq<Waiting>)
    requires rest != [] && NoErrors(Events(c, open, rest, text, depth, stack))
    ensures !Judge(c, rest[0], text, depth, |stack|).0.Fail?
    ensures NoErrors(Events(c, open, rest[1..], text, depth, Pushed(c, open, rest[0], text, depth, stack)))
  {
    EventsUnfold(c, open, rest, text, depth, stack);
    ResultsOfPrefix(Judge(c, rest[0], text, depth, |stack|).0,
                    Events(c, open, rest[1..], text, depth, Pushed(c, open, rest[0], text, depth, stack)));
  }

  lemma PopReturnsAllowed(c: Config, open: Openings, text: string, depth: nat, stack: seq<Waiting>)
    requires c.recursive && stack != [] && open(stack[|stack| - 1].text).Opened?
    ensures var w, below := stack[|stack| - 1], stack[..|stack| - 1];
            && Events(c, open, [], text, depth, stack) == Events(c, open, w.children, w.text, w.depth, below)
            && Allowed(c, w.children, w.text, w.depth) + AllowedWaiting(c, below)
               == Allowed(c, [], text, depth) + AllowedWaiting(c, stack)
  {
  }

  /** A walk without errors has opened every directory that waited. */
  lemma {:induction false} NoErrorsOpensAll(c: Config, open: Openings, rest: seq<Entry>, text: string, depth: nat,
                                            stack: seq<Waiting>)
    requires c.recursive && NoErrors(Events(c, open, rest, text, depth, stack))
    ensures CanOpen(open, stack)
    decreases Size(rest) + StackSize(stack), |stack|
  {
    if rest != [] {
      EventsUnfold(c, open, rest, text, depth, stack);
      HeadNoErrors(c, open, rest, text, depth, stack);
      NoErrorsOpensAll(c, open, rest[1..], text, depth, Pushed(c, open, rest[0], text, depth, stack));
      StackInPushed(c, open, rest[0], text, depth, stack);
    } else if stack != [] {
      var w, below := stack[|stack| - 1], stack[..|stack| - 1];
      assert open(w.text).Opened? by {
        if !open(w.text).Opened? {
          assert Events(c, open, rest, text, depth, stack)[0].Failed?;
        }
      }
      NoErrorsOpensAll(c, open, w.children, w.text, w.depth, below);
      assert stack == below + [w];
    }
  }

  lemma StackInPushed(c: Config, open: Openings, e: Entry, text: string, depth: nat, stack: seq<Waiting>)
    ensures forall w | w in stack :: w in Pushed(c, open, e, text, depth, stack)
  {
  }

  /** A walk that reports no error returns every allowed entry as often as the
      tree has it; so an entry is missing only after an error was reported. */
  lemma {:induction false} WalkReturnsAllowed(c: Config, open: Openings, rest: seq<Entry>, text: string, depth: nat,
                                              stack: seq<Waiting>)
    requires c.recursive || stack == []
    requires NoErrors(Events(c, open, rest, text, depth, stack))
    ensures Results(Events(c, open, rest, text, depth, stack))
         == Allowed(c, rest, text, depth) + AllowedWaiting(c, stack)
    decreases Size(rest) + StackSize(stack), |stack|
  {
    if rest != [] {
      EventsUnfold(c, open, rest, text, depth, stack);
      HeadNoErrors(c, open, rest, text, depth, stack);
      WalkReturnsAllowed(c, open, rest[1..], text, depth, Pushed(c, open, rest[0], text, depth, stack));
      if c.recursive {
        NoErrorsOpensAll(c, open, rest[1..], text, depth, Pushed(c, open, rest[0], text, depth, stack));
      }
      HeadReturnsAllowed(c, open, rest, text, depth, stack);
    } else if stack != [] {
      NoErrorsOpensAll(c, open, rest, text, depth, stack);
      PopReturnsAllowed(c, open, text, depth, stack);
      var w := stack[|stack| - 1];
      WalkReturnsAllowed(c, open, w.children, w.text, w.depth, stack[..|stack| - 1]);
    }
  }

  // ------------------------------------------------------------ exactly once

  /** A directory holds real names, no two of them the same. */
  predicate WellFormed(entries: seq<Entry>)
  {
    entries == [] ||
    (&& Genuine(entries[0].name)
     && (forall i | 1 <= i < |entries| :: entries[i].name != entries[0].name)
     && (entries[0].DirEntry? ==> WellFormed(entries[0].children))
     && WellFormed(entries[1..]))
  }

  /** Enciphering a deciphered name gives the stored name back, and what is
      deciphered is a name. */
  ghost predicate NameLaw(c: Config)
  {
    c.naming.Ciphered? ==>
      && Lawful(c.naming.cipher)
      && forall s :: c.naming.cipher.decrypt(s).Done? ==>
           var view := c.naming.cipher.decrypt(s).value;
           Genuine(view) && c.naming.cipher.encrypt(view) == Done(s)
  }

  lemma {:induction false} GenuineIn(entries: seq<Entry>, i: nat)
    requires WellFormed(entries) && i < |entries|
    ensures Genuine(entries[i].name) && (entries[i].DirEntry? ==> WellFormed(entries[i].children))
  {
    if i > 0 {
      GenuineIn(entries[1..], i - 1);
    }
  }

  /** A shown name is a name, and it is stored under the entry's name. */
  lemma ViewRestored(c: Config, name: string)
    requires NameLaw(c) && Genuine(name) && View(c, name).Some?
    ensures Restored(c.naming, View(c, name).value)
    ensures StoredName(c.naming, View(c, name).value) == Done(name)
  {
    if c.naming.Ciphered? {
      assert c.naming.cipher.decrypt(name).Done?;
    }
  }

  /** What comes before the names in a directory. */
  function Base(text: string): string
  {
    if text == "" then "" else text + "/"
  }

  /** The text up to the first '/'. */
  function Segment(s: string): string
  {
    if s == "" || s[0] == '/' then "" else [s[0]] + Segment(s[1..])
  }

  lemma {:induction false} SegmentOf(name: string, rest: string)
    requires '/' !in name && (rest == "" || rest[0] == '/')
    ensures Segment(name + rest) == name
  {
    if name == "" {
      assert name + rest == rest;
    } else {
      assert (name + rest)[1..] == name[1..] + rest;
      SegmentOf(name[1..], rest);
    }
  }

  /** The path of `o` goes through `name` in the directory at `text`. */
  predicate Through(o: Found, text: string, name: string)
  {
    && |Base(text)| < |o.path| && o.path[..|Base(text)|] == Base(text)
    && Segment(o.path[|Base(text)|..]) == name
  }

  lemma ThroughItself(text: string, name: string, isDir: bool)
    requires Genuine(name)
    ensures Through(Found(Child(text, name), isDir), text, name)
  {
    SegmentOf(name, "");
    assert name + "" == name;
    assert Child(text, name) == Base(text) + name;
  }

  lemma ThroughBelow(o: Found, text: string, name: string, below: string)
    requires Genuine(name) && Through(o, Child(text, name), below)
    ensures Through(o, text, name)
  {
    var base, inner := Base(text), Base(Child(text, name));
    assert inner == base + (name + "/");
    assert o.path == inner + o.path[|inner|..];
    var rest := "/" + o.path[|inner|..];
    SegmentOf(name, rest);
    assert o.path[|base|..] == name + rest;
    assert o.path[..|base|] == base;
  }

  predicate ThroughEntry(c: Config, entries: seq<Entry>, text: string, o: Found, i: nat)
  {
    i < |entries| && Passes(c, entries[i]) && Through(o, text, View(c, entries[i].name).value)
  }

  lemma {:induction false} AllowedUnder(c: Config, entries: seq<Entry>, text: string, depth: nat, o: Found)
    returns (i: nat)
    requires NameLaw(c) && WellFormed(entries)
    requires o in Allowed(c, entries, text, depth)
    ensures ThroughEntry(c, entries, text, o, i)
    decreases entries, 1
  {
    if o in AllowedEntry(c, entries[0], text, depth) {
      EntryUnder(c, entries[0], text, depth, o);
      i := 0;
    } else {
      var k := AllowedUnder(c, entries[1..], text, depth, o);
      i := k + 1;
    }
  }

  lemma {:induction false} EntryUnder(c: Config, e: Entry, text: string, depth: nat, o: Found)
    requires NameLaw(c) && Genuine(e.name) && (e.DirEntry? ==> WellFormed(e.children))
    requires o in AllowedEntry(c, e, text, depth)
    ensures Passes(c, e) && Through(o, text, View(c, e.name).value)
    decreases e, 0
  {
    var view := View(c, e.name).value;
    ViewRestored(c, e.name);
    ThroughItself(text, view, e.DirEntry?);
    if o != Found(Child(text, view), e.DirEntry?) {
      var i := AllowedUnder(c, e.children, Child(text, view), depth + 1, o);
      ThroughBelow(o, text, view, View(c, e.children[i].name).value);
    }
  }

  lemma NamesApart(c: Config, entries: seq<Entry>)
    requires NameLaw(c) && WellFormed(entries) && entries != [] && Passes(c, entries[0])
    ensures forall i | 0 <= i < |entries[1..]| && Passes(c, entries[1..][i]) ::
              View(c, entries[1..][i].name).value != View(c, entries[0].name).value
  {
    forall i | 0 <= i < |entries[1..]| && Passes(c, entries[1..][i])
      ensures View(c, entries[1..][i].name).value != View(c, entries[0].name).value
    {
      GenuineIn(entries, i + 1);
      ViewRestored(c, entries[i + 1].name);
      ViewRestored(c, entries[0].name);
    }
  }

  lemma EntryApartFromRest(c: Config, entries: seq<Entry>, text: string, depth: nat, o: Found)
    requires NameLaw(c) && WellFormed(entries) && entries != []
    requires o in AllowedEntry(c, entries[0], text, depth)
    ensures o !in Allowed(c, entries[1..], text, depth)
  {
    EntryUnder(c, entries[0], text, depth, o);
    NamesApart(c, entries);
    if o in Allowed(c, entries[1..], text, depth) {
      var i := AllowedUnder(c, entries[1..], text, depth, o);
    }
  }

  /** A directory's own path is not that of anything below it. */
  lemma OwnPathApart(c: Config, e: Entry, text: string, depth: nat, o: Found)
    requires NameLaw(c) && Passes(c, e) && e.DirEntry? && WellFormed(e.children)
    requires o in Allowed(c, e.children, Child(text, View(c, e.name).value), depth + 1)
    ensures o != Found(Child(text, View(c, e.name).value), true)
  {
    var i := AllowedUnder(c, e.children, Child(text, View(c, e.name).value), depth + 1, o);
  }

  /** No entry is allowed twice. */
  lemma {:induction false} AllowedOnce(c: Config, entries: seq<Entry>, text: string, depth: nat, o: Found)
    requires NameLaw(c) && WellFormed(entries)
    ensures Allowed(c, entries, text, depth)[o] <= 1
  {
    if entries != [] {
      AllowedOnce(c, entries[1..], text, depth, o);
      EntryOnce(c, entries[0], text, depth, o);
      if o in AllowedEntry(c, entries[0], text, depth) {
        EntryApartFromRest(c, entries, text, depth, o);
      }
    }
  }

  lemma {:induction false} EntryOnce(c: Config, e: Entry, text: string, depth: nat, o: Found)
    requires NameLaw(c) && (e.DirEntry? ==> WellFormed(e.children))
    ensures AllowedEntry(c, e, text, depth)[o] <= 1
  {
    if Passes(c, e) && Descends(c, e, depth) {
      var below := Child(text, View(c, e.name).value);
      AllowedOnce(c, e.children, below, depth + 1, o);
      if o in Allowed(c, e.children, below, depth + 1) {
        OwnPathApart(c, e, text, depth, o);
      }
    }
  }

  /** A walk that reports no error returns exactly the allowed entries, each once. */
  lemma CompleteWalk(c: Config, open: Openings, entries: seq<Entry>, start: string)
    requires NameLaw(c) && WellFormed(entries)
    requires NoErrors(Events(c, open, entries, start, 0, []))
    ensures Results(Events(c, open, entries, start, 0, [])) == Allowed(c, entries, start, 0)
    ensures forall o | o in Allowed(c, entries, start, 0) :: Allowed(c, entries, start, 0)[o] == 1
  {
    WalkReturnsAllowed(c, open, entries, start, 0, []);
    forall o | o in Allowed(c, entries, start, 0) ensures Allowed(c, entries, start, 0)[o] == 1 {
      AllowedOnce(c, entries, start, 0, o);
    }
  }

  // ------------------------------------------------------ when no error comes

  predicate AllDecrypt(c: Config, entries: seq<Entry>)
  {
    entries == [] ||
    (&& View(c, entries[0].name).Some?
     && (entries[0].DirEntry? ==> AllDecrypt(c, entries[0].children))
     && AllDecrypt(c, entries[1..]))
  }

  /** Every directory the walk enters can be opened. */
  predicate AllOpen(c: Config, open: Openings, entries: seq<Entry>, text: string, depth: nat)
  {
    entries == [] ||
    (&& (Passes(c, entries[0]) && Descends(c, entries[0], depth) ==>
           var p := Child(text, View(c, entries[0].name).value);
           open(p).Opened? && AllOpen(c, open, entries[0].children, p, depth + 1))
     && AllOpen(c, open, entries[1..], text, depth))
  }

  predicate StackGood(c: Config, open: Openings, stack: seq<Waiting>)
  {
    forall w | w in stack ::
      AllDecrypt(c, w.children) && open(w.text).Opened? && AllOpen(c, open, w.children, w.text, w.depth)
  }

  lemma NoErrorsAfter(v: Verdict, rest: seq<Event>)
    requires !v.Fail? && NoErrors(rest)
    ensures NoErrors(EventOf(v) + rest)
  {
  }

  lemma PushGood(c: Config, open: Openings, e: Entry, text: string, depth: nat, stack: seq<Waiting>)
    requires View(c, e.name).Some? && (e.DirEntry? ==> AllDecrypt(c, e.children)) && StackGood(c, open, stack)
    requires AllOpen(c, open, [e], text, depth)
    ensures StackGood(c, open, Pushed(c, open, e, text, depth, stack))
    ensures |Pushed(c, open, e, text, depth, stack)| <= |stack| + 1
  {
    if Judge(c, e, text, depth, |stack|).1 {
      assert [e][0] == e;
    }
  }

  lemma PopGood(c: Config, open: Openings, stack: seq<Waiting>)
    requires StackGood(c, open, stack) && stack != []
    ensures StackGood(c, open, stack[..|stack| - 1])
    ensures var w := stack[|stack| - 1];
            AllDecrypt(c, w.children) && open(w.text).Opened? && AllOpen(c, open, w.children, w.text, w.depth)
  {
  }

  lemma FirstOpen(c: Config, open: Openings, rest: seq<Entry>, text: string, depth: nat)
    requires rest != [] && AllOpen(c, open, rest, text, depth)
    ensures AllOpen(c, open, [rest[0]], text, depth) && AllOpen(c, open, rest[1..], text, depth)
  {
    assert [rest[0]][1..] == [];
  }

  /** With names that decipher, directories that can be opened and no more entries
      than directories may wait, a walk has nothing to report. */
  lemma {:induction false} SmallTreeHasNoErrors(c: Config, open: Openings, rest: seq<Entry>, text: string, depth: nat,
                                                stack: seq<Waiting>)
    requires AllDecrypt(c, rest) && AllOpen(c, open, rest, text, depth) && StackGood(c, open, stack)
    requires |stack| + Size(rest) + StackSize(stack) <= PendingLimit(c)
    ensures NoErrors(Events(c, open, rest, text, depth, stack))
    decreases Size(rest) + StackSize(stack), |stack|
  {
    if rest != [] {
      var next := Pushed(c, open, rest[0], text, depth, stack);
      EventsUnfold(c, open, rest, text, depth, stack);
      FirstOpen(c, open, rest, text, depth);
      PushGood(c, open, rest[0], text, depth, stack);
      SmallTreeHasNoErrors(c, open, rest[1..], text, depth, next);
      NoErrorsAfter(Judge(c, rest[0], text, depth, |stack|).0, Events(c, open, rest[1..], text, depth, next));
    } else if c.recursive && stack != [] {
      PopGood(c, open, stack);
      var w := stack[|stack| - 1];
      SmallTreeHasNoErrors(c, open, w.children, w.text, w.depth, stack[..|stack| - 1]);
    }
  }
}
