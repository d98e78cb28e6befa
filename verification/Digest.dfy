/** Digest authentication: nonces with a time window, request counters that only go up. */
module Digest {
  import opened Wrappers

  /** A nonce before it is written as text: seconds of issue, random part, check. */
  datatype Payload = Payload(issued: int, random: string, mac: string)

  /** Encoding and hashing, left open. */
  datatype Env = Env(
    encode: Payload -> string,
    decode: string -> Option<Payload>,
    mac: (string, int, string) -> string,
    hash: string -> string,
    isSha256: string -> bool)

  ghost predicate Lawful(env: Env)
  {
    && (forall p :: env.decode(env.encode(p)) == Some(p))
    && (forall t :: env.decode(t).Some? ==> '\0' !in t && ':' !in t)
  }

  /** The fields of an Authorization header that parsed, or none. */
  datatype Request = Request(fields: Option<map<string, string>>, method_: string, uri: string)

  datatype Account = Account(username: string, password: string, realm: string, key: string)

  const SECOND := 1_000_000_000
  const LIFETIME := 5 * 60 * SECOND
  const SKEW := 30 * SECOND

  function Get(request: Request, name: string): string
  {
    if request.fields.Some? && name in request.fields.value then request.fields.value[name] else ""
  }

  function HexDigit(c: char): Option<nat>
  {
    if '0' <= c <= '9' then Some(c as nat - '0' as nat)
    else if 'a' <= c <= 'f' then Some(c as nat - 'a' as nat + 10)
    else if 'A' <= c <= 'F' then Some(c as nat - 'A' as nat + 10)
    else None
  }

  function HexValue(s: string): Option<nat>
  {
    if s == "" then Some(0)
    else
      var high, low := HexValue(s[..|s| - 1]), HexDigit(s[|s| - 1]);
      if high.None? || low.None? then None else Some(16 * high.value + low.value)
  }

  predicate LowerHex(s: string, n: nat)
  {
    |s| == n && forall i | 0 <= i < n :: '0' <= s[i] <= '9' || 'a' <= s[i] <= 'f'
  }

  /** Times are in nanoseconds, times of issue in whole seconds. */
  datatype NonceState = Good | Stale | Bad

  function JudgeNonce(env: Env, a: Account, nonce: string, now: int): NonceState
  {
    var payload := env.decode(nonce);
    if payload.None? then Bad
    else if payload.value.mac != env.mac(a.key, payload.value.issued, payload.value.random) then Bad
    else if payload.value.issued * SECOND > now + SKEW then Bad
    else if now - payload.value.issued * SECOND > LIFETIME then Stale
    else Good
  }

  function Expected(env: Env, a: Account, request: Request): string
  {
    var ha1 := env.hash(a.username + ":" + a.realm + ":" + a.password);
    var ha2 := env.hash(request.method_ + ":" + Get(request, "uri"));
    env.hash(ha1 + ":" + Get(request, "nonce") + ":" + Get(request, "nc") + ":" + Get(request, "cnonce")
             + ":auth:" + ha2)
  }

  predicate Addressed(env: Env, a: Account, request: Request)
  {
    && request.fields.Some?
    && env.isSha256(Get(request, "algorithm")) && Get(request, "qop") == "auth"
    && Get(request, "username") == a.username && Get(request, "realm") == a.realm
    && Get(request, "uri") == request.uri
  }

  /** Everything but the counter. */
  predicate Genuine(env: Env, a: Account, request: Request, now: int)
  {
    && Addressed(env, a, request)
    && JudgeNonce(env, a, Get(request, "nonce"), now).Good?
    && |Get(request, "nc")| == 8 && HexValue(Get(request, "nc")).Some? && Count(request) > 0
    && Get(request, "cnonce") != ""
    && LowerHex(Get(request, "response"), 64) && Get(request, "response") == Expected(env, a, request)
  }

  function Count(request: Request): nat
  {
    var nc := HexValue(Get(request, "nc"));
    if nc.Some? then nc.value else 0
  }

  /** The name under which the highest counter is kept. */
  function CounterKey(request: Request): string
  {
    Get(request, "nonce") + "\0" + Get(request, "username") + "\0" + Get(request, "cnonce")
  }

  predicate Accepts(env: Env, a: Account, table: map<string, nat>, request: Request, now: int)
  {
    Genuine(env, a, request, now)
    && (CounterKey(request) in table ==> Count(request) > table[CounterKey(request)])
  }

  class DigestState {
    const account: Account
    var maxNC: map<string, nat>

    constructor (account: Account)
      ensures this.account == account && maxNC == map[]
    {
      this.account := account;
      maxNC := map[];
    }

    method NewNonce(env: Env, now: int, random: string) returns (nonce: string)
      ensures Lawful(env) ==> env.decode(nonce).Some? && env.decode(nonce).value.random == random
      ensures Lawful(env) ==> JudgeNonce(env, account, nonce, now).Good?
      ensures Lawful(env) ==> forall t {:trigger JudgeNonce(env, account, nonce, t)} ::
                && (-SKEW <= t - now <= LIFETIME - SECOND ==> JudgeNonce(env, account, nonce, t).Good?)
                && (t - now > LIFETIME ==> JudgeNonce(env, account, nonce, t).Stale?)
    {
      var issued := now / SECOND;
      nonce := env.encode(Payload(issued, random, env.mac(account.key, issued, random)));
      if Lawful(env) {
        forall t {
          MintedNonceWindow(env, account, now, random, t);
        }
      }
    }

    method ValidNonce(env: Env, nonce: string, now: int) returns (valid: bool, stale: bool)
      ensures valid <==> JudgeNonce(env, account, nonce, now).Good?
      ensures stale <==> JudgeNonce(env, account, nonce, now).Stale?
    {
      var payload := env.decode(nonce);
      if payload.None? {
        return false, false;
      }
      var p := payload.value;
      if p.mac != env.mac(account.key, p.issued, p.random) {
        return false, false;
      }
      if p.issued * SECOND > now + SKEW {
        return false, false;
      }
      if now - p.issued * SECOND > LIFETIME {
        return false, true;
      }
      return true, false;
    }

    method Verify(env: Env, request: Request, now: int) returns (ok: bool, stale: bool)
      modifies this
      ensures ok <==> Accepts(env, account, old(maxNC), request, now)
      ensures maxNC == if ok then old(maxNC)[CounterKey(request) := Count(request)] else old(maxNC)
      ensures stale <==> Addressed(env, account, request)
                         && JudgeNonce(env, account, Get(request, "nonce"), now).Stale?
    {
      if request.fields.None? {
        return false, false;
      }
      if !env.isSha256(Get(request, "algorithm")) || Get(request, "qop") != "auth" {
        return false, false;
      }
      if Get(request, "username") != account.username || Get(request, "realm") != account.realm {
        return false, false;
      }
      if Get(request, "uri") != request.uri {
        return false, false;
      }
      var valid, expired := ValidNonce(env, Get(request, "nonce"), now);
      if !valid {
        return false, expired;
      }
      if |Get(request, "nc")| != 8 {
        return false, false;
      }
      var nc := HexValue(Get(request, "nc"));
      if nc.None? || nc.value == 0 || Get(request, "cnonce") == "" {
        return false, false;
      }
      if !LowerHex(Get(request, "response"), 64) || Expected(env, account, request) != Get(request, "response") {
        return false, false;
      }
      var key := CounterKey(request);
      if key in maxNC && nc.value <= maxNC[key] {
        return false, false;
      }
      maxNC := maxNC[key := nc.value];
      return true, false;
    }
  }

  // ----------------------------------------------------------- every run

  /** A request comes, or the session is closed and restored from its record. */
  datatype Happening = Arrival(request: Request, at: int) | Restored

  /** The counters after a run; times need not be in order. A restored session has
      its old key and no counters. */
  function Table(env: Env, a: Account, run: seq<Happening>): map<string, nat>
  {
    if run == [] then map[]
    else
      var before, last := Table(env, a, run[..|run| - 1]), run[|run| - 1];
      if last.Restored? then map[]
      else if Accepts(env, a, before, last.request, last.at)
      then before[CounterKey(last.request) := Count(last.request)] else before
  }

  predicate AcceptedAt(env: Env, a: Account, run: seq<Happening>, i: nat)
    requires i < |run|
  {
    run[i].Arrival? && Accepts(env, a, Table(env, a, run[..i]), run[i].request, run[i].at)
  }

  predicate RestoredBetween(run: seq<Happening>, i: nat, j: nat)
    requires i <= j <= |run|
  {
    Restored in run[i..j]
  }

  /** The table still holds the counter of arrival `m`, or a higher one. */
  predicate Remembered(env: Env, a: Account, run: seq<Happening>, m: nat, key: string, count: nat)
  {
    && m < |run| && AcceptedAt(env, a, run, m)
    && CounterKey(run[m].request) == key && Count(run[m].request) >= count
    && !RestoredBetween(run, m, |run|)
  }

  predicate Holds(table: map<string, nat>, key: string, count: nat)
  {
    key in table && table[key] >= count
  }

  lemma PrefixSame(env: Env, a: Account, run: seq<Happening>, m: nat, key: string, count: nat)
    requires run != [] && m < |run| - 1 && run[|run| - 1].Arrival?
    ensures Remembered(env, a, run, m, key, count) <==> Remembered(env, a, run[..|run| - 1], m, key, count)
  {
    var before := run[..|run| - 1];
    assert before[..m] == run[..m];
    assert run[m..|run|] == before[m..|before|] + [run[|run| - 1]];
  }

  ghost predicate SomeRemembered(env: Env, a: Account, run: seq<Happening>, key: string, count: nat)
  {
    exists m: nat :: Remembered(env, a, run, m, key, count)
  }

  lemma NoneAfterRestore(env: Env, a: Account, run: seq<Happening>, key: string, count: nat)
    requires run != [] && run[|run| - 1].Restored?
    ensures !SomeRemembered(env, a, run, key, count)
  {
    forall m: nat | m < |run| ensures RestoredBetween(run, m, |run|) {
      assert run[m..|run|][|run| - 1 - m] == Restored;
    }
  }

  lemma SomeAfterArrival(env: Env, a: Account, run: seq<Happening>, key: string, count: nat)
    requires run != [] && run[|run| - 1].Arrival?
    ensures SomeRemembered(env, a, run, key, count) <==>
            SomeRemembered(env, a, run[..|run| - 1], key, count)
            || Remembered(env, a, run, |run| - 1, key, count)
  {
    var before := run[..|run| - 1];
    forall m: nat | m < |run| - 1
      ensures Remembered(env, a, run, m, key, count) <==> Remembered(env, a, before, m, key, count)
    {
      PrefixSame(env, a, run, m, key, count);
    }
    if SomeRemembered(env, a, before, key, count) {
      var m: nat :| Remembered(env, a, before, m, key, count);
      assert Remembered(env, a, run, m, key, count);
    }
  }

  lemma LastRemembered(env: Env, a: Account, run: seq<Happening>, key: string, count: nat)
    requires run != [] && run[|run| - 1].Arrival?
    ensures var before, last := Table(env, a, run[..|run| - 1]), run[|run| - 1];
            Remembered(env, a, run, |run| - 1, key, count) <==>
              Accepts(env, a, before, last.request, last.at)
              && CounterKey(last.request) == key && Count(last.request) >= count
  {
    assert run[|run| - 1..|run|] == [run[|run| - 1]];
  }

  /** What the table holds, it holds because of an accepted arrival since the last
      restore; and every such arrival it holds. */
  lemma {:induction false} TableHolds(env: Env, a: Account, run: seq<Happening>, key: string, count: nat)
    ensures Holds(Table(env, a, run), key, count) <==> SomeRemembered(env, a, run, key, count)
  {
    if run != [] {
      if run[|run| - 1].Restored? {
        NoneAfterRestore(env, a, run, key, count);
      } else {
        TableHolds(env, a, run[..|run| - 1], key, count);
        SomeAfterArrival(env, a, run, key, count);
        LastRemembered(env, a, run, key, count);
      }
    }
  }

  /** Exactly when a request that was accepted is accepted when it comes again: while
      its nonce is good, and if since every arrival with the same nonces and at least
      its counter the session was restored. */
  lemma RepeatAccepted(env: Env, a: Account, run: seq<Happening>, i: nat, j: nat)
    requires i < j < |run| && run[j].Arrival? && AcceptedAt(env, a, run, i) && run[i].request == run[j].request
    ensures var r := run[j].request;
            AcceptedAt(env, a, run, j) <==>
              && JudgeNonce(env, a, Get(r, "nonce"), run[j].at).Good?
              && forall m | 0 <= m < j && Counts(env, a, run, m, r) :: RestoredBetween(run, m, j)
  {
    var r := run[j].request;
    TableHolds(env, a, run[..j], CounterKey(r), Count(r));
    forall m | 0 <= m < j
      ensures Remembered(env, a, run[..j], m, CounterKey(r), Count(r)) <==>
              Counts(env, a, run, m, r) && !RestoredBetween(run, m, j)
    {
      assert run[..j][..m] == run[..m];
      assert run[..j][m..|run[..j]|] == run[m..j];
    }
  }

  /** An accepted arrival with the same nonces and at least the counter. */
  predicate Counts(env: Env, a: Account, run: seq<Happening>, m: nat, r: Request)
    requires m < |run|
  {
    AcceptedAt(env, a, run, m) && CounterKey(run[m].request) == CounterKey(r) && Count(run[m].request) >= Count(r)
  }

  /** Of two accepted requests with the same nonce and client nonce the later one
      has the higher counter, unless the session was restored between them. */
  lemma CountersIncrease(env: Env, a: Account, run: seq<Happening>, i: nat, j: nat)
    requires i < j < |run| && AcceptedAt(env, a, run, i) && AcceptedAt(env, a, run, j)
    requires Get(run[i].request, "nonce") == Get(run[j].request, "nonce")
    requires Get(run[i].request, "cnonce") == Get(run[j].request, "cnonce")
    requires !RestoredBetween(run, i, j)
    ensures Count(run[i].request) < Count(run[j].request)
  {
    var key, count := CounterKey(run[i].request), Count(run[i].request);
    TableHolds(env, a, run[..j], key, count);
    assert run[..j][..i] == run[..i];
    assert run[..j][i..|run[..j]|] == run[i..j];
    assert Remembered(env, a, run[..j], i, key, count);
    assert CounterKey(run[j].request) == key;
  }

  /** While the session lives, no accepted request is accepted again. */
  lemma NeverTwice(env: Env, a: Account, run: seq<Happening>, i: nat, j: nat)
    requires i < j < |run| && run[i] != Restored && run[j] != Restored && run[i].request == run[j].request
    requires AcceptedAt(env, a, run, i) && !RestoredBetween(run, i, j)
    ensures !AcceptedAt(env, a, run, j)
  {
    if AcceptedAt(env, a, run, j) {
      CountersIncrease(env, a, run, i, j);
    }
  }

  /** Texts around the first mark. */
  lemma AroundMark(mark: char, m: string, u: string, n: string, v: string)
    requires mark !in m && mark !in n && m + [mark] + u == n + [mark] + v
    ensures m == n && u == v
  {
    var x := m + [mark] + u;
    assert x[|m|] == mark && x[|n|] == mark;
    assert x[..|m|] == m && x[..|n|] == n;
    assert x[|m| + 1..] == u && x[|n| + 1..] == v;
  }

  /** Requests share a counter only if they share both nonces. */
  lemma KeysDoNotMix(env: Env, a: Account, p: Request, q: Request, now: int, other: int)
    requires Lawful(env) && Genuine(env, a, p, now) && Genuine(env, a, q, other)
    ensures CounterKey(p) == CounterKey(q) <==>
            (Get(p, "nonce") == Get(q, "nonce") && Get(p, "cnonce") == Get(q, "cnonce"))
  {
    var m, n := Get(p, "nonce"), Get(q, "nonce");
    assert '\0' !in m && '\0' !in n;
    var u, v := a.username + "\0" + Get(p, "cnonce"), a.username + "\0" + Get(q, "cnonce");
    assert CounterKey(p) == m + "\0" + u && CounterKey(q) == n + "\0" + v;
    if CounterKey(p) == CounterKey(q) {
      AroundMark('\0', m, u, n, v);
      assert u[|a.username| + 1..] == Get(p, "cnonce") && v[|a.username| + 1..] == Get(q, "cnonce");
    }
  }

  /** A minted nonce is good exactly in its window around the second of issue, stale
      exactly after it. */
  lemma MintedNonceWindow(env: Env, a: Account, minted: int, random: string, now: int)
    requires Lawful(env)
    ensures var issued := minted / SECOND;
            var nonce := env.encode(Payload(issued, random, env.mac(a.key, issued, random)));
            && (JudgeNonce(env, a, nonce, now).Good? <==> -SKEW <= now - issued * SECOND <= LIFETIME)
            && (JudgeNonce(env, a, nonce, now).Stale? <==> now - issued * SECOND > LIFETIME)
            && (-SKEW <= now - minted <= LIFETIME - SECOND ==> JudgeNonce(env, a, nonce, now).Good?)
            && (now - minted > LIFETIME ==> JudgeNonce(env, a, nonce, now).Stale?)
  {
    var issued := minted / SECOND;
    assert issued * SECOND <= minted < issued * SECOND + SECOND;
    assert env.decode(env.encode(Payload(issued, random, env.mac(a.key, issued, random)))).Some?;
  }

  /** A nonce is good exactly if it decodes to a payload that carries this key's code
      and was issued at most 30 seconds ahead and at most five minutes ago, and stale
      exactly if it is one that is older. */
  lemma OnlyMintedNonces(env: Env, a: Account, nonce: string, now: int)
    ensures JudgeNonce(env, a, nonce, now).Good? <==>
            exists issued, random :: Minted(env, a, nonce, issued, random)
                                     && -30_000_000_000 <= now - issued * 1_000_000_000 <= 300_000_000_000
    ensures JudgeNonce(env, a, nonce, now).Stale? <==>
            exists issued, random :: Minted(env, a, nonce, issued, random)
                                     && now - issued * 1_000_000_000 > 300_000_000_000
  {
    if env.decode(nonce).Some? && !JudgeNonce(env, a, nonce, now).Bad? {
      var payload := env.decode(nonce).value;
      assert Minted(env, a, nonce, payload.issued, payload.random);
    }
  }

  predicate Minted(env: Env, a: Account, nonce: string, issued: int, random: string)
  {
    env.decode(nonce) == Some(Payload(issued, random, env.mac(a.key, issued, random)))
  }

  // ------------------------------------------------ what a response vouches for

  /** No two texts have one hash, and hashes are 64 characters long. */
  ghost predicate HashLaw(env: Env)
  {
    && (forall x, y :: env.hash(x) == env.hash(y) ==> x == y)
    && (forall x :: |env.hash(x)| == 64)
  }

  lemma SameLengths(m: string, u: string, n: string, v: string)
    requires |m| == |n| && m + u == n + v
    ensures m == n && u == v
  {
    assert (m + u)[..|m|] == m && (n + v)[..|n|] == n;
    assert (m + u)[|m|..] == u && (n + v)[|n|..] == v;
  }

  lemma SameEnds(m: string, u: string, n: string, v: string)
    requires |u| == |v| && m + u == n + v
    ensures m == n && u == v
  {
    assert |m| == |n|;
    SameLengths(m, u, n, v);
  }

  /** The text that is hashed last, taken apart. */
  lemma ResponseParts(x: string, nonce: string, nc: string, cnonce: string, ends: string,
                      y: string, nonce': string, nc': string, cnonce': string, ends': string)
    requires |x| == |y| == 64 && |nc| == |nc'| == 8 && |ends| == |ends'| == 64 && ':' !in nonce && ':' !in nonce'
    requires x + ":" + nonce + ":" + nc + ":" + cnonce + ":auth:" + ends
          == y + ":" + nonce' + ":" + nc' + ":" + cnonce' + ":auth:" + ends'
    ensures x == y && nonce == nonce' && nc == nc' && cnonce == cnonce' && ends == ends'
  {
    var r, r' := nc + (":" + (cnonce + (":auth:" + ends))), nc' + (":" + (cnonce' + (":auth:" + ends')));
    assert x + ":" + nonce + ":" + nc + ":" + cnonce + ":auth:" + ends == (x + ":") + (nonce + [':'] + r);
    assert y + ":" + nonce' + ":" + nc' + ":" + cnonce' + ":auth:" + ends' == (y + ":") + (nonce' + [':'] + r');
    SameLengths(x + ":", nonce + [':'] + r, y + ":", nonce' + [':'] + r');
    SameLengths(x, ":", y, ":");
    AroundMark(':', nonce, r, nonce', r');
    SameLengths(nc, ":" + (cnonce + (":auth:" + ends)), nc', ":" + (cnonce' + (":auth:" + ends')));
    SameLengths(":", cnonce + (":auth:" + ends), ":", cnonce' + (":auth:" + ends'));
    SameEnds(cnonce, ":auth:" + ends, cnonce', ":auth:" + ends');
    SameLengths(":auth:", ends, ":auth:", ends');
  }

  /** A response vouches for everything: two requests with one response, each genuine
      for some account, have the same method, address, nonces and counter, and the
      accounts the same name, realm and password. */
  lemma ResponseBinds(env: Env, a: Account, b: Account, p: Request, q: Request, now: int, other: int)
    requires Lawful(env) && HashLaw(env) && Genuine(env, a, p, now) && Genuine(env, b, q, other)
    requires Get(p, "response") == Get(q, "response")
    requires ':' !in p.method_ && ':' !in q.method_
    ensures p.method_ == q.method_ && p.uri == q.uri
    ensures Get(p, "nonce") == Get(q, "nonce") && Get(p, "cnonce") == Get(q, "cnonce")
    ensures Get(p, "nc") == Get(q, "nc")
    ensures NoColon(a) && NoColon(b) ==>
              (a.username, a.realm, a.password) == (b.username, b.realm, b.password)
  {
    ExpectedBinds(env, a, b, p, q);
    AroundMark(':', p.method_, p.uri, q.method_, q.uri);
    SameAccounts(a, b);
  }

  lemma ExpectedBinds(env: Env, a: Account, b: Account, p: Request, q: Request)
    requires HashLaw(env) && Expected(env, a, p) == Expected(env, b, q)
    requires Get(p, "uri") == p.uri && Get(q, "uri") == q.uri
    requires ':' !in Get(p, "nonce") && ':' !in Get(q, "nonce") && |Get(p, "nc")| == |Get(q, "nc")| == 8
    ensures Credentials(a) == Credentials(b) && Aim(p) == Aim(q)
    ensures Get(p, "nonce") == Get(q, "nonce") && Get(p, "cnonce") == Get(q, "cnonce")
    ensures Get(p, "nc") == Get(q, "nc")
  {
    ResponseParts(env.hash(Credentials(a)), Get(p, "nonce"), Get(p, "nc"), Get(p, "cnonce"), env.hash(Aim(p)),
                  env.hash(Credentials(b)), Get(q, "nonce"), Get(q, "nc"), Get(q, "cnonce"), env.hash(Aim(q)));
  }

  function Credentials(a: Account): string
  {
    a.username + ":" + a.realm + ":" + a.password
  }

  function Aim(request: Request): string
  {
    request.method_ + ":" + request.uri
  }

  predicate NoColon(a: Account)
  {
    ':' !in a.username && ':' !in a.realm
  }

  lemma SameAccounts(a: Account, b: Account)
    ensures Credentials(a) == Credentials(b) && NoColon(a) && NoColon(b) ==>
              (a.username, a.realm, a.password) == (b.username, b.realm, b.password)
  {
    if Credentials(a) == Credentials(b) && NoColon(a) && NoColon(b) {
      assert Credentials(a) == a.username + [':'] + (a.realm + [':'] + a.password);
      assert Credentials(b) == b.username + [':'] + (b.realm + [':'] + b.password);
      AroundMark(':', a.username, a.realm + [':'] + a.password, b.username, b.realm + [':'] + b.password);
      AroundMark(':', a.realm, a.password, b.realm, b.password);
    }
  }

  // ----------------------------------------------------- the number in a counter

  function Power16(k: nat): nat
  {
    if k == 0 then 1 else 16 * Power16(k - 1)
  }

  const DIGITS := "0123456789abcdef"
  const CAPITALS := "0123456789ABCDEF"

  /** The text is written with these digits. */
  predicate Spells(s: string, digits: seq<nat>)
  {
    |digits| == |s| &&
    forall i | 0 <= i < |s| :: digits[i] < 16 && (s[i] == DIGITS[digits[i]] || s[i] == CAPITALS[digits[i]])
  }

  /** The first digit counts most. */
  function Positional(digits: seq<nat>): nat
  {
    if digits == [] then 0 else digits[0] * Power16(|digits| - 1) + Positional(digits[1..])
  }

  lemma DigitOf(c: char, d: nat)
    requires d < 16 && (c == DIGITS[d] || c == CAPITALS[d])
    ensures HexDigit(c) == Some(d)
  {
  }

  lemma {:induction false} PositionalSnoc(digits: seq<nat>, d: nat)
    ensures Positional(digits + [d]) == 16 * Positional(digits) + d
  {
    var all := digits + [d];
    if digits == [] {
      assert all[1..] == [] && Positional(all) == d * Power16(0) + Positional([]);
    } else {
      assert all[1..] == digits[1..] + [d];
      PositionalSnoc(digits[1..], d);
      assert digits[0] * Power16(|digits|) == 16 * (digits[0] * Power16(|digits| - 1));
    }
  }

  /** A counter written in hexadecimal digits, of either case, is that number. */
  lemma {:induction false} CountIsNumber(s: string, digits: seq<nat>)
    requires Spells(s, digits)
    ensures HexValue(s) == Some(Positional(digits))
  {
    if s != "" {
      var n := |s| - 1;
      CountIsNumber(s[..n], digits[..n]);
      DigitOf(s[n], digits[n]);
      PositionalSnoc(digits[..n], digits[n]);
      assert digits == digits[..n] + [digits[n]];
    }
  }

  lemma DigitValue(c: char) returns (d: nat)
    requires HexDigit(c).Some?
    ensures HexDigit(c) == Some(d) && d < 16 && (c == DIGITS[d] || c == CAPITALS[d])
  {
    d := HexDigit(c).value;
  }

  lemma SpellsMore(s: string, digits: seq<nat>, c: char, d: nat)
    requires Spells(s, digits) && d < 16 && (c == DIGITS[d] || c == CAPITALS[d])
    ensures Spells(s + [c], digits + [d])
  {
  }

  lemma {:induction false} NumberIsSpelled(s: string) returns (digits: seq<nat>)
    requires HexValue(s).Some?
    ensures Spells(s, digits) && HexValue(s) == Some(Positional(digits))
  {
    if s == "" {
      digits := [];
    } else {
      var n := |s| - 1;
      var before := NumberIsSpelled(s[..n]);
      var d := DigitValue(s[n]);
      digits := before + [d];
      PositionalSnoc(before, d);
      SpellsMore(s[..n], before, s[n], d);
      assert s == s[..n] + [s[n]];
    }
  }

  /** What the header of an accepted request says (section 3.4 of RFC 7616): it is for
      this account and address, with SHA-256 and quality "auth", a client nonce, a
      counter of eight hexadecimal digits that is not zero, and a response of 64. */
  lemma FieldsOfGenuine(env: Env, a: Account, request: Request, now: int)
    requires Genuine(env, a, request, now)
    ensures request.fields.Some? && env.isSha256(Get(request, "algorithm")) && Get(request, "qop") == "auth"
    ensures Get(request, "username") == a.username && Get(request, "realm") == a.realm
    ensures Get(request, "uri") == request.uri && Get(request, "cnonce") != ""
    ensures exists digits ::
              |digits| == 8 && Spells(Get(request, "nc"), digits) && Positional(digits) == Count(request) > 0
    ensures |Get(request, "response")| == 64
    ensures forall c | c in Get(request, "response") :: c in "0123456789abcdef"
  {
    var digits := NumberIsSpelled(Get(request, "nc"));
    forall c | c in Get(request, "response") ensures c in "0123456789abcdef" {
      DigitListed(c);
    }
  }

  lemma DigitListed(c: char)
    requires '0' <= c <= '9' || 'a' <= c <= 'f'
    ensures c in "0123456789abcdef"
  {
    var i := if c <= '9' then c as int - '0' as int else c as int - 'a' as int + 10;
    assert DIGITS[i] == c;
  }
}
