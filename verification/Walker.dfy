/** The streaming directory walker: batches of entries, a bounded stack of
    directories still to be read, filters applied on the way. */
module Walker {
  import opened NamePaths
  import opened PathContains
  import opened PathParser
  import opened StorePath
  import opened WalkLookup
  import opened WalkSpec
  import opened Wrappers

  const BATCH_SIZE: nat := 100

  datatype Answer = Got(found: Found) | Eof | Err(error: WalkError)

  datatype BatchAnswer = GotBatch(entries: seq<Found>) | BatchEof | BatchErr(error: WalkError)

  /** What the head of the events is as an answer. */
  function AnswerOf(events: seq<Event>): Answer
  {
    if events == [] then Eof
    else match events[0]
         case Returned(found) => Got(found)
         case Failed(error) => Err(error)
  }

  /** Only opening a directory fails in this way, and it leaves the walker without one. */
  predicate Blocking(error: Option<WalkError>)
  {
    error == Some(BadName) || error == Some(NotFound)
  }

  predicate CannotOpen(answer: Answer)
  {
    answer.Err? && Blocking(Some(answer.error))
  }

  function Tail(events: seq<Event>): seq<Event>
  {
    if events == [] then [] else events[1..]
  }

  lemma AnswerOfVerdict(v: Verdict, rest: seq<Event>)
    ensures v.Skip? ==> EventOf(v) + rest == rest
    ensures v.Return? ==> AnswerOf(EventOf(v) + rest) == Got(v.found) && Tail(EventOf(v) + rest) == rest
    ensures v.Fail? ==> AnswerOf(EventOf(v) + rest) == Err(v.error) && Tail(EventOf(v) + rest) == rest
  {
    if !v.Skip? {
      assert (EventOf(v) + rest)[1..] == rest;
    }
  }

  class Walker {
    const config: Config
    const rootInfo: Info
    const root: seq<Entry>
    /** What opening a view path finds under the root. */
    ghost const open: Openings
    ghost const start: string
    var relativePath: string
    /** The open directory: what has not been read from it yet. */
    var dirFile: Option<seq<Entry>>
    var rawEntries: seq<Entry>
    var rawIndex: nat
    var initialized: bool
    var closed: bool
    var dirStack: seq<Item>
    var currentDepth: nat

    ghost function Children(text: string): seq<Entry>
    {
      var found := open(text);
      if found.Opened? then found.entries else []
    }

    ghost predicate Exists(text: string)
    {
      open(text).Opened?
    }

    /** What is left of the current directory, read ahead or not. */
    ghost function Rest(): seq<Entry>
      reads this
    {
      (if rawIndex < |rawEntries| then rawEntries[rawIndex..] else []) + (if dirFile.Some? then dirFile.value else [])
    }

    ghost function Stack(): (s: seq<Waiting>)
      reads this
      ensures |s| == |dirStack|
    {
      seq(|dirStack|, i requires 0 <= i < |dirStack| reads this =>
        Waiting(dirStack[i].text, dirStack[i].depth, Children(dirStack[i].text)))
    }

    /** A directory could not be opened, so there is nothing to read from. */
    ghost predicate Broken()
      reads this
    {
      initialized && !closed && dirFile.None? && rawIndex >= |rawEntries|
    }

    /** The walk is at the point where the next directory cannot be opened. */
    static ghost predicate Blocked(events: seq<Event>, error: WalkError)
    {
      events == [Failed(error)] && (error == BadName || error == NotFound)
    }

    /** What a waiting directory's path opens, if anything, is that directory. */
    ghost predicate Waits(item: Item)
    {
      Exists(item.text) ==> Truthful(config, open, Children(item.text), item.text, item.depth)
    }

    ghost predicate Lawful()
    {
      && OpensStored(open, config, root)
      && WellMade(rootInfo) && rootInfo.parts != []
    }

    ghost predicate Valid()
      reads this
    {
      && Lawful() && !closed
      && |dirStack| <= PendingLimit(config)
      && (forall i | 0 <= i < |dirStack| :: Waits(dirStack[i]))
      && (!config.recursive ==> dirStack == [] && relativePath == start && currentDepth == 0)
      && (if initialized then OpenHere() else NotYet())
    }

    ghost predicate OpenHere()
      reads this
    {
      && dirFile.Some? && Exists(relativePath)
      && Truthful(config, open, Rest(), relativePath, currentDepth)
      && Truthful(config, open, Children(relativePath), relativePath, currentDepth)
    }

    ghost predicate NotYet()
      reads this
    {
      && dirStack == [] && rawEntries == [] && rawIndex == 0 && dirFile.None? && currentDepth == 0
      && relativePath == start
      && Truthful(config, open, Children(relativePath), relativePath, 0)
    }

    /** Everything this walker has still to answer. */
    ghost function Pending(): seq<Event>
      reads this
    {
      if initialized then Events(config, open, Rest(), relativePath, currentDepth, Stack())
      else Events(config, open, Children(relativePath), relativePath, 0, [])
    }

    /** Entries not yet looked at, here and in the waiting directories. */
    ghost function Work(): nat
      reads this
    {
      Size(Rest()) + StackSize(Stack())
    }

    constructor (config: Config, rootInfo: Info, root: seq<Entry>, start: string)
      requires WellFormed(root) && NameLaw(config)
      requires WellMade(rootInfo) && rootInfo.parts != []
      requires Open(config, root, start).Opened? ==>
                 Honest(config, Open(config, root, start).entries, start, 0)
      ensures Valid() && !initialized && this.config == config && this.root == root && relativePath == start
      ensures open == Opener(config, root) && this.start == start
      ensures Pending() == Events(config, open, Children(start), start, 0, [])
    {
      this.config, this.rootInfo, this.root, relativePath, this.start := config, rootInfo, root, start, start;
      dirFile, rawEntries, rawIndex, initialized, closed := None, [], 0, false, false;
      dirStack, currentDepth, open := [], 0, Opener(config, root);
      new;
      assert OpensStored(open, config, root);
      if Open(config, root, start).Opened? {
        HonestIsTruthful(config, root, Open(config, root, start).entries, start, 0);
      }
    }

    /** Converts the view path, checks that it stays under the root, and opens what
        the full path leads to there. */
    method OpenDir(text: string) returns (opening: Opening)
      requires Lawful()
      ensures opening == open(text)
    {
      assert Asks(text);
      var store, full := ViewPathToStorePathCheck(rootInfo, text, config.naming, false, SYSTEM);
      if !full.Done? {
        return Refused;
      }
      CheckedStaysUnderRoot(rootInfo, store.value, SYSTEM, []);
      var names := Names(full.value)[|Names(rootInfo)|..];
      var found := Lookup(root, names);
      opening := match found
                 case None => Missing
                 case Some(entries) => Opened(entries);
    }

    /** At least one entry if there is one, and at most a batch. */
    method ReadDir() returns (entries: seq<Entry>)
      requires dirFile.Some?
      modifies this`dirFile
      ensures dirFile.Some? && entries + dirFile.value == old(dirFile.value)
      ensures entries == [] <==> old(dirFile.value) == []
    {
      entries := [];
      if dirFile.value != [] {
        var k :| 1 <= k <= BATCH_SIZE && k <= |dirFile.value|;
        entries := dirFile.value[..k];
        dirFile := Some(dirFile.value[k..]);
      }
    }

    method Init() returns (error: Option<WalkError>)
      requires Valid() && !initialized
      modifies this
      ensures error == InitError(old(relativePath))
      ensures error == None ==> Valid() && initialized && Pending() == old(Pending())
      ensures error.Some? ==> Broken()
    {
      initialized := true;
      var opening := OpenDir(relativePath);
      if opening.Refused? {
        return Some(BadName);
      }
      if opening.Missing? {
        return Some(NotFound);
      }
      dirFile, rawEntries, rawIndex := Some(opening.entries), [], 0;
      assert Rest() == Children(relativePath) && Stack() == [] && currentDepth == 0;
      assert OpenHere();
      error := None;
    }

    /** Why the first directory cannot be opened, if it cannot. */
    ghost function InitError(text: string): Option<WalkError>
    {
      match open(text)
      case Refused => Some(BadName)
      case Missing => Some(NotFound)
      case Opened(_) => None
    }

    /** The current batch is used up: read on, or go to the next directory. */
    method LoadNextBatch() returns (more: bool, error: Option<WalkError>)
      requires Valid() && initialized && rawIndex >= |rawEntries|
      modifies this
      ensures error == None ==> Valid() && initialized && Pending() == old(Pending()) && Work() <= old(Work())
      ensures error == None && more ==> rawIndex < |rawEntries|
      ensures error == None && !more ==> Pending() == [] && rawIndex >= |rawEntries|
      ensures error.Some? ==> Broken() && Blocked(old(Pending()), error.value)
    {
      ghost var rest, stack := Rest(), Stack();
      var entries := ReadDir();
      if entries == [] {
        assert Rest() == rest == [];
        assert Stack() == stack;
        more, error := LoadNextDirectory();
        return;
      }
      rawEntries, rawIndex := entries, 0;
      assert Rest() == rest;
      assert Stack() == stack;
      more, error := true, None;
    }

    /** Goes through waiting directories until one has entries. One that cannot be
        opened leaves the walker without a handle. */
    method LoadNextDirectory() returns (more: bool, error: Option<WalkError>)
      requires Valid() && initialized && Rest() == []
      modifies this
      ensures error == None ==> Valid() && initialized && Pending() == old(Pending()) && Work() <= old(Work())
      ensures error == None && more ==> rawIndex < |rawEntries|
      ensures error == None && !more ==> Pending() == [] && rawIndex >= |rawEntries|
      ensures error.Some? ==> Broken() && Blocked(old(Pending()), error.value)
    {
      while config.recursive && |dirStack| > 0
        invariant Valid() && initialized && Rest() == []
        invariant Pending() == old(Pending()) && Work() <= old(Work())
        decreases |dirStack|
      {
        error := OpenTop();
        if error.Some? {
          return false, error;
        }
        if rawEntries == [] {
          continue;
        }
        return true, None;
      }
      label Done:
      rawEntries := [];
      assert Rest() == [];
      assert Stack() == old@Done(Stack());
      more, error := false, None;
    }

    /** Takes the last waiting directory, opens it and reads a first batch. */
    method OpenTop() returns (error: Option<WalkError>)
      requires Valid() && initialized && Rest() == [] && config.recursive && |dirStack| > 0
      modifies this
      ensures error == None ==> Valid() && initialized && Pending() == old(Pending()) && Work() <= old(Work())
      ensures error == None ==>
                |dirStack| < old(|dirStack|) && rawIndex == 0 && (rawEntries == [] ==> Rest() == [])
      ensures error.Some? ==> Broken() && Blocked(old(Pending()), error.value)
    {
      ghost var stack := Stack();
      var item := dirStack[|dirStack| - 1];
      assert stack[|stack| - 1] == Waiting(item.text, item.depth, Children(item.text));
      PopWeighs(config, open, relativePath, currentDepth, stack);
      error := Enter(item);
    }

    method Enter(item: Item) returns (error: Option<WalkError>)
      requires Valid() && initialized && Rest() == [] && |dirStack| > 0 && item == dirStack[|dirStack| - 1]
      modifies this
      ensures error == if open(item.text).Opened? then None else Some(OpenError(open(item.text)))
      ensures error == None ==> Valid() && initialized && dirStack == old(dirStack[..|dirStack| - 1])
      ensures error == None ==> Stack() == old(Stack())[..|dirStack|]
      ensures error == None ==>
                && relativePath == item.text && currentDepth == item.depth && Rest() == Children(item.text)
                && rawIndex == 0 && (rawEntries == [] ==> Rest() == [])
      ensures error.Some? ==> Broken()
    {
      assert Waits(item);
      dirStack := dirStack[..|dirStack| - 1];
      dirFile := None;
      var opening := OpenDir(item.text);
      match opening {
        case Refused => return Some(BadName);
        case Missing => return Some(NotFound);
        case Opened(entries) =>
          relativePath, dirFile, currentDepth, rawEntries, rawIndex := item.text, Some(entries), item.depth, [], 0;
      }
      rawEntries := ReadDir();
      assert Rest() == Children(item.text);
      assert Stack() == old(Stack())[..|dirStack|];
      error := None;
    }

    /** Remembers a directory to be walked later, by its path. */
    method PutOnStack(e: Entry, name: string)
      requires Valid() && initialized && |dirStack| < PendingLimit(config)
      requires Passes(config, e) && Descends(config, e, currentDepth) && View(config, e.name) == Some(name)
      requires TruthfulEntry(config, open, e, relativePath, currentDepth)
      modifies this`dirStack
      ensures Valid()
      ensures Stack() == old(Stack()) + [WaitingFor(open, Child(relativePath, name), currentDepth + 1, e.children)]
    {
      ghost var stack := Stack();
      var text := Child(relativePath, name);
      assert Waits(Item(text, currentDepth + 1));
      dirStack := dirStack + [Item(text, currentDepth + 1)];
      assert Stack() == stack + [WaitingFor(open, text, currentDepth + 1, e.children)];
    }

    /** Decrypts and filters one entry of the current directory; a directory to
        be walked later is put on the stack, or refused if the stack is full. */
    method ProcessEntry(e: Entry) returns (verdict: Verdict)
      requires Valid() && initialized && TruthfulEntry(config, open, e, relativePath, currentDepth)
      modifies this`dirStack
      ensures Valid() && verdict == Judge(config, e, relativePath, currentDepth, |old(dirStack)|).0
      ensures Stack() == Pushed(config, open, e, relativePath, currentDepth, old(Stack()))
      ensures verdict.Fail? ==> !Blocking(Some(verdict.error))
    {
      var isDir := e.DirEntry?;
      if config.ignoreStored(e.name, isDir) {
        return Skip;
      }
      var decrypted := View(config, e.name);
      if decrypted.None? {
        return Fail(Corrupted);
      }
      var name := decrypted.value;
      if !config.includeHidden && |name| > 0 && name[0] == '.' {
        return Skip;
      }
      if config.ignoreView(name, isDir) {
        return Skip;
      }
      if isDir && config.recursive {
        if config.maxDepth == 0 || currentDepth < config.maxDepth {
          if |dirStack| >= PendingLimit(config) {
            return Fail(WorkLimit);
          }
          PutOnStack(e, name);
        }
      }
      if config.skipFiles && !isDir {
        return Skip;
      }
      if config.skipDirs && isDir {
        return Skip;
      }
      return Return(Found(Child(relativePath, name), isDir));
    }

    static lemma AfterFirst(entries: seq<Entry>, i: nat, unread: seq<Entry>)
      requires i < |entries|
      ensures (entries[i..] + unread)[1..] == (if i + 1 < |entries| then entries[i + 1..] else []) + unread
    {
    }

    /** Looks at the next entry of the batch. */
    method TakeEntry() returns (verdict: Verdict)
      requires Valid() && initialized && rawIndex < |rawEntries|
      modifies this`rawIndex, this`dirStack
      ensures Valid() && initialized && Work() < old(Work())
      ensures old(Pending()) == EventOf(verdict) + Pending()
      ensures verdict.Fail? ==> !Blocking(Some(verdict.error))
    {
      ghost var rest, stack := Rest(), Stack();
      EventsUnfold(config, open, rest, relativePath, currentDepth, stack);
      var entry := Advance();
      verdict := ProcessEntry(entry);
      assert Rest() == rest[1..];
    }

    method Advance() returns (entry: Entry)
      requires Valid() && initialized && rawIndex < |rawEntries|
      modifies this`rawIndex
      ensures Valid() && entry == old(Rest())[0]
      ensures TruthfulEntry(config, open, entry, relativePath, currentDepth)
      ensures Rest() == old(Rest())[1..] && Stack() == old(Stack())
    {
      ghost var rest := Rest();
      entry := rawEntries[rawIndex];
      AfterFirst(rawEntries, rawIndex, dirFile.value);
      rawIndex := rawIndex + 1;
      assert Rest() == rest[1..];
      assert entry == rest[0];
    }

    /** Answers with the first event still to come; at the end, Eof for ever. */
    method Next() returns (answer: Answer)
      requires Valid() || Broken() || closed
      modifies this
      ensures old(closed) ==> answer == Err(WalkerClosed) && closed
      ensures old(Broken()) ==> answer == Err(BadHandle) && Broken()
      ensures old(Valid()) && !old(initialized) && InitError(old(relativePath)).Some? ==>
                answer == Err(InitError(old(relativePath)).value) && Broken()
      ensures old(Valid()) && (old(initialized) || InitError(old(relativePath)) == None) ==>
                && answer == AnswerOf(old(Pending()))
                && (if CannotOpen(answer) then Broken() && Tail(old(Pending())) == []
                    else Valid() && initialized && Pending() == Tail(old(Pending())))
    {
      if closed {
        return Err(WalkerClosed);
      }
      if !initialized {
        var error := Init();
        if error.Some? {
          return Err(error.value);
        }
      } else if dirFile.None? {
        return Err(BadHandle);
      }
      answer := NextEvent();
    }

    /** The first event still to come, in an open directory. */
    method NextEvent() returns (answer: Answer)
      requires Valid() && initialized
      modifies this
      ensures answer == AnswerOf(old(Pending()))
      ensures if CannotOpen(answer) then Broken() && Tail(old(Pending())) == []
              else Valid() && initialized && Pending() == Tail(old(Pending()))
    {
      ghost var events := Pending();
      while true
        invariant Valid() && initialized && Pending() == events
        decreases Work()
      {
        if rawIndex >= |rawEntries| {
          var more, error := LoadNextBatch();
          if error.Some? {
            return Err(error.value);
          }
          if !more {
            return Eof;
          }
        }
        var verdict := TakeEntry();
        AnswerOfVerdict(verdict, Pending());
        match verdict {
          case Skip =>
          case Return(found) => return Got(found);
          case Fail(error) => return Err(error);
        }
      }
    }

    /** Up to `n` entries at once. An error throws away what the call had collected. */
    method NextBatch(n: int) returns (answer: BatchAnswer)
      requires Valid() || Broken() || closed
      modifies this
      ensures old(closed) ==> answer == BatchErr(WalkerClosed) && closed
      ensures old(Broken()) ==> answer == (if n <= 0 then GotBatch([]) else BatchErr(BadHandle)) && Broken()
      ensures old(Valid()) && !old(initialized) && InitError(old(relativePath)).Some? ==>
                answer == BatchErr(InitError(old(relativePath)).value) && Broken()
      ensures old(Valid()) && (old(initialized) || InitError(old(relativePath)) == None) ==>
                && (n <= 0 ==> Valid() && initialized && answer == GotBatch([]) && Pending() == old(Pending()))
                && (n > 0 ==>
                      var (collected, error, rest) := Collect(old(Pending()), n);
                      && (if Blocking(error) then Broken() && rest == []
                          else Valid() && initialized && Pending() == rest)
                      && answer == match error
                                   case Some(e) => BatchErr(e)
                                   case None => if collected == [] then BatchEof else GotBatch(collected))
    {
      if closed {
        return BatchErr(WalkerClosed);
      }
      if !initialized {
        var error := Init();
        if error.Some? {
          return BatchErr(error.value);
        }
      }
      if n <= 0 {
        return GotBatch([]);
      }
      if dirFile.None? {
        return BatchErr(BadHandle);
      }
      var batch, error := CollectBatch(n);
      answer := match error
                case Some(e) => BatchErr(e)
                case None => if |batch| == 0 then BatchEof else GotBatch(batch);
    }

    method CollectBatch(n: nat) returns (batch: seq<Found>, error: Option<WalkError>)
      requires Valid() && initialized && n > 0
      modifies this
      ensures var (collected, failure, rest) := Collect(old(Pending()), n);
              && batch == collected && error == failure
              && (if Blocking(error) then Broken() && rest == [] else Valid() && initialized && Pending() == rest)
    {
      batch, error := [], None;
      ghost var events := Pending();
      CollectsNothingYet(events, n);
      while |batch| < n
        invariant Valid() && initialized && error == None
        invariant CollectsTo(events, n, batch, Pending())
        decreases Work()
      {
        if rawIndex >= |rawEntries| {
          ghost var now := Pending();
          var more, failure := LoadNextBatch();
          if failure.Some? {
            CollectsFailure(events, n, batch, now);
            return batch, failure;
          }
          if !more {
            CollectsAll(events, n, batch, []);
            return batch, None;
          }
        }
        var done;
        batch, error, done := CollectOne(n, batch, events);
        if done {
          return batch, error;
        }
      }
      CollectsAll(events, n, batch, Pending());
    }

    /** Looks at the next entry and adds it to the batch, unless it is passed over or
        ends the batch with an error. */
    method CollectOne(n: nat, before: seq<Found>, ghost events: seq<Event>)
      returns (batch: seq<Found>, error: Option<WalkError>, done: bool)
      requires Valid() && initialized && rawIndex < |rawEntries|
      requires |before| < n && CollectsTo(events, n, before, Pending())
      modifies this`rawIndex, this`dirStack
      ensures Valid() && initialized && Work() < old(Work())
      ensures done <==> error.Some?
      ensures !done ==> CollectsTo(events, n, batch, Pending())
      ensures done ==> Collect(events, n) == (batch, error, Pending()) && !Blocking(error)
    {
      var verdict := TakeEntry();
      CollectsOneMore(events, n, before, verdict, Pending());
      match verdict {
        case Skip => batch, error, done := before, None, false;
        case Return(found) => batch, error, done := before + [found], None, false;
        case Fail(e) => batch, error, done := before, Some(e), true;
      }
    }

    /** False when nothing is left, or when the next directory cannot be opened, which
        nobody is then told; true does not promise an entry, since what is left may all
        be filtered out. */
    method HasNext() returns (has: bool)
      requires Valid() || Broken() || closed
      modifies this
      ensures old(closed) ==> !has && closed
      ensures old(Broken()) ==> !has && Broken()
      ensures old(Valid()) ==>
                || (Valid() && Pending() == old(Pending()) && (!has ==> initialized && Pending() == []))
                || (Broken() && !has && exists error :: Blocked(old(Pending()), error))
    {
      if closed {
        return false;
      }
      if !initialized {
        return true;
      }
      if rawIndex < |rawEntries| {
        return true;
      }
      if dirFile.None? {
        return false;
      }
      var more, error := LoadNextBatch();
      has := more && error == None;
    }

    /** Drops everything; only WalkerClosed is answered from then on. */
    method Close()
      modifies this
      ensures closed && dirFile == None && rawEntries == [] && dirStack == []
      ensures relativePath == old(relativePath) && currentDepth == old(currentDepth)
      ensures initialized == old(initialized) && rawIndex == old(rawIndex)
    {
      closed, rawEntries, dirStack, dirFile := true, [], [], None;
    }

    /** Reads the current directory from its beginning again. What waits goes on
        waiting, and where the walk began is forgotten: only a walker that does not
        recurse starts over. */
    method Reset() returns (error: Option<WalkError>)
      requires Valid() || Broken() || closed
      modifies this`rawIndex, this`rawEntries, this`dirFile
      ensures old(closed) ==> error == Some(WalkerClosed) && closed
      ensures old(Broken()) ==> error == None && Broken()
      ensures old(Valid()) ==> (error == None || error == Some(SeekFailed)) && initialized == old(initialized)
      ensures old(Valid()) && error == None ==> Valid() && Stack() == old(Stack())
      ensures old(Valid()) && error == None && initialized ==>
                Pending() == Events(config, open, Children(relativePath), relativePath, currentDepth, Stack())
      ensures old(Valid()) && error == None && (!config.recursive || !initialized) ==>
                Pending() == Events(config, open, Children(start), start, 0, [])
    {
      if closed {
        return Some(WalkerClosed);
      }
      rawIndex, rawEntries := 0, [];
      if dirFile.None? {
        return None;
      }
      var failed: bool := *;
      if failed {
        return Some(SeekFailed);
      }
      var opening := OpenDir(relativePath);
      dirFile := Some(opening.entries);
      assert Rest() == Children(relativePath);
      assert Stack() == old(Stack());
      error := None;
    }
  }

  /** What a batch of `n` takes from the events: the entries up to the first
      error, that error, and what is left. */
  function Collect(events: seq<Event>, n: nat): (seq<Found>, Option<WalkError>, seq<Event>)
  {
    if n == 0 || events == [] then ([], None, events)
    else match events[0]
         case Failed(error) => ([], Some(error), events[1..])
         case Returned(found) =>
           var (collected, error, rest) := Collect(events[1..], n - 1);
           ([found] + collected, error, rest)
  }

  /** Collecting `n` from `events` is having `batch` and collecting the rest from `now`. */
  ghost predicate CollectsTo(events: seq<Event>, n: nat, batch: seq<Found>, now: seq<Event>)
  {
    |batch| <= n &&
    var (collected, error, rest) := Collect(now, n - |batch|);
    Collect(events, n) == (batch + collected, error, rest)
  }

  lemma CollectsNothingYet(events: seq<Event>, n: nat)
    ensures CollectsTo(events, n, [], events)
  {
    assert [] + Collect(events, n).0 == Collect(events, n).0;
  }

  lemma CollectVerdict(v: Verdict, rest: seq<Event>, n: nat)
    requires n > 0
    ensures Collect(EventOf(v) + rest, n) ==
            match v
            case Skip => Collect(rest, n)
            case Return(found) =>
              var (collected, error, left) := Collect(rest, n - 1);
              ([found] + collected, error, left)
            case Fail(error) => ([], Some(error), rest)
  {
    var all := EventOf(v) + rest;
    if v == Skip {
      assert all == rest;
    } else {
      assert all[1..] == rest;
    }
  }

  lemma CollectsOneMore(events: seq<Event>, n: nat, batch: seq<Found>, v: Verdict, now: seq<Event>)
    requires CollectsTo(events, n, batch, EventOf(v) + now) && |batch| < n
    ensures v.Skip? ==> CollectsTo(events, n, batch, now)
    ensures v.Return? ==> CollectsTo(events, n, batch + [v.found], now)
    ensures v.Fail? ==> Collect(events, n) == (batch, Some(v.error), now)
  {
    CollectVerdict(v, now, n - |batch|);
    if v.Return? {
      var collected := Collect(now, n - |batch| - 1).0;
      assert batch + ([v.found] + collected) == (batch + [v.found]) + collected;
    } else if v.Fail? {
      assert batch + [] == batch;
    }
  }

  lemma CollectsFailure(events: seq<Event>, n: nat, batch: seq<Found>, now: seq<Event>)
    requires CollectsTo(events, n, batch, now) && |batch| < n && |now| == 1 && now[0].Failed?
    ensures Collect(events, n) == (batch, Some(now[0].error), [])
  {
    assert batch + [] == batch && now[1..] == [];
  }

  lemma CollectsAll(events: seq<Event>, n: nat, batch: seq<Found>, now: seq<Event>)
    requires CollectsTo(events, n, batch, now) && (|batch| == n || now == [])
    ensures Collect(events, n) == (batch, None, now)
  {
    assert batch + [] == batch;
  }

  function FoundOf(events: seq<Event>): seq<Found>
    requires NoErrors(events)
  {
    seq(|events|, i requires 0 <= i < |events| => events[i].found)
  }

  /** Without errors a batch is exactly the next `n` answers of Next, so calls of
      the two can be mixed in any way. */
  lemma {:induction false} BatchIsNextRepeated(events: seq<Event>, n: nat)
    requires NoErrors(events)
    ensures var k := if n < |events| then n else |events|;
            Collect(events, n) == (FoundOf(events[..k]), None, events[k..])
  {
    if n > 0 && events != [] {
      BatchIsNextRepeated(events[1..], n - 1);
      var k := if n < |events| then n else |events|;
      assert events[1..][..k - 1] == events[..k][1..];
      assert events[1..][k - 1..] == events[k..];
      assert FoundOf(events[..k]) == [events[0].found] + FoundOf(events[1..][..k - 1]);
    } else {
      assert events[0..] == events;
      assert FoundOf(events[..0]) == [];
    }
  }
}
