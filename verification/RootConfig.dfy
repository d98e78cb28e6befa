/** The configuration of a root: how a password opens it, how a password change or
    a hint update builds a staged copy and commits it with one rename. */
module RootConfig {

  datatype Field =
    | Salt | Params | VerifierVersion | Challenge | Tag
    | EnvelopeVersion | Nonce | Ciphertext | Hint | Other(name: string)

  type Config = map<Field, string>

  /** A configuration file: while it is being rewritten it may be cut short. */
  datatype File = Torn | Whole(config: Config)

  datatype Answer = Content(key: string) | NoVerifier | WrongPassword | Invalid

  /** The cryptographic functions, left open. */
  datatype Crypto = Crypto(
    derive: (string, string, string) -> string,
    tag: (string, string) -> string,
    seal: (string, string, string) -> string,
    open: (string, string, string) -> Answer)

  /** What is sealed opens with its key, and whatever opens it finds what was sealed. */
  ghost predicate Lawful(c: Crypto)
  {
    && (forall k, n, x :: c.open(k, n, c.seal(k, n, x)) == Content(x))
    && (forall k, j, n, x :: c.open(j, n, c.seal(k, n, x)).Content? ==> c.open(j, n, c.seal(k, n, x)) == Content(x))
  }

  const DEFAULT_PARAMS := "default"
  const VERSION := "1"

  function ParamsOf(cfg: Config): string
  {
    if Params in cfg then cfg[Params] else DEFAULT_PARAMS
  }

  /** The key a password stands for. */
  function WrappingKey(c: Crypto, cfg: Config, password: string): string
    requires Salt in cfg
  {
    c.derive(password, cfg[Salt], ParamsOf(cfg))
  }

  function Verify(c: Crypto, cfg: Config, key: string): Answer
  {
    if VerifierVersion !in cfg then NoVerifier
    else if cfg[VerifierVersion] != VERSION || Challenge !in cfg || Tag !in cfg then Invalid
    else if cfg[Tag] != c.tag(key, cfg[Challenge]) then WrongPassword
    else Content(key)
  }

  function Unwrap(c: Crypto, cfg: Config, key: string): Answer
  {
    if Nonce !in cfg || Ciphertext !in cfg then Invalid else c.open(key, cfg[Nonce], cfg[Ciphertext])
  }

  /** Opening a root: the content key is in the envelope, or, in a root without one,
      it is the password's own key. */
  function Unlock(c: Crypto, cfg: Config, password: string): Answer
  {
    if Salt !in cfg then Invalid
    else
      var key := WrappingKey(c, cfg, password);
      if EnvelopeVersion in cfg && cfg[EnvelopeVersion] != VERSION then Invalid
      else
        var verified := Verify(c, cfg, key);
        if !verified.Content? || EnvelopeVersion !in cfg then verified else Unwrap(c, cfg, key)
  }

  /** The two kinds of change, with the random values they draw. */
  datatype Update =
    | NewPassword(current: string, next: string, salt: string, challenge: string, nonce: string)
    | NewHint(current: string, hint: string)

  /** Why a change is refused before anything is staged; Content carries the key to wrap. */
  function Checked(c: Crypto, cfg: Config, u: Update): Answer
  {
    match u
    case NewPassword(current, next, _, _, _) =>
      if current == "" || next == "" then WrongPassword
      else if EnvelopeVersion !in cfg || Params !in cfg then Invalid
      else Unlock(c, cfg, current)
    case NewHint(current, hint) =>
      if current == "" || |hint| > 256 || Salt !in cfg then Invalid
      else Verify(c, cfg, WrappingKey(c, cfg, current))
  }

  /** The fields a change writes, in order; the versions come last. */
  function Writes(c: Crypto, cfg: Config, u: Update, content: string): seq<(Field, string)>
  {
    match u
    case NewPassword(_, next, salt, challenge, nonce) =>
      var key := c.derive(next, salt, ParamsOf(cfg));
      [(Salt, salt), (Params, ParamsOf(cfg)),
       (Challenge, challenge), (Tag, c.tag(key, challenge)), (VerifierVersion, VERSION),
       (Nonce, nonce), (Ciphertext, c.seal(key, nonce, content)), (EnvelopeVersion, VERSION)]
    case NewHint(_, hint) => [(Hint, hint)]
  }

  function WriteAll(cfg: Config, writes: seq<(Field, string)>): Config
  {
    if writes == [] then cfg
    else WriteAll(cfg, writes[..|writes| - 1])[writes[|writes| - 1].0 := writes[|writes| - 1].1]
  }

  /** The whole new record; a refused change leaves the record. */
  function Apply(c: Crypto, cfg: Config, u: Update): Config
  {
    var checked := Checked(c, cfg, u);
    if checked.Content? then WriteAll(cfg, Writes(c, cfg, u, checked.key)) else cfg
  }

  // ------------------------------------------------------- what a change keeps

  /** The record is one a password opens to this content key, and nothing else can
      come out of it. */
  ghost predicate Opens(c: Crypto, cfg: Config, password: string, content: string)
  {
    && Unlock(c, cfg, password) == Content(content)
    && (EnvelopeVersion in cfg ==> Unambiguous(c, cfg, content))
  }

  ghost predicate Unambiguous(c: Crypto, cfg: Config, content: string)
  {
    forall p :: Unlock(c, cfg, p).Content? ==> Unlock(c, cfg, p) == Content(content)
  }

  lemma FieldsOfNewPassword(cfg: Config, a: string, b: string, d: string, e: string, f: string, g: string)
    ensures WriteAll(cfg, [(Salt, a), (Params, b), (Challenge, d), (Tag, e), (VerifierVersion, VERSION),
                           (Nonce, f), (Ciphertext, g), (EnvelopeVersion, VERSION)])
         == cfg[Salt := a][Params := b][Challenge := d][Tag := e][VerifierVersion := VERSION]
               [Nonce := f][Ciphertext := g][EnvelopeVersion := VERSION]
  {
    var w := [(Salt, a), (Params, b), (Challenge, d), (Tag, e), (VerifierVersion, VERSION),
              (Nonce, f), (Ciphertext, g), (EnvelopeVersion, VERSION)];
    assert w[..7][..6] == w[..6] && w[..6][..5] == w[..5] && w[..5][..4] == w[..4];
    assert w[..4][..3] == w[..3] && w[..3][..2] == w[..2] && w[..2][..1] == w[..1] && w[..1][..0] == [];
    assert WriteAll(cfg, w[..1]) == cfg[Salt := a];
    assert WriteAll(cfg, w[..2]) == cfg[Salt := a][Params := b];
    assert WriteAll(cfg, w[..3]) == cfg[Salt := a][Params := b][Challenge := d];
    assert WriteAll(cfg, w[..4]) == cfg[Salt := a][Params := b][Challenge := d][Tag := e];
    var five := WriteAll(cfg, w[..5]);
    assert five == cfg[Salt := a][Params := b][Challenge := d][Tag := e][VerifierVersion := VERSION];
    assert WriteAll(cfg, w[..6]) == five[Nonce := f];
    assert WriteAll(cfg, w[..7]) == five[Nonce := f][Ciphertext := g];
  }

  /** After a password change the new password opens the same content, and the
      hint and every unrelated field are as before. */
  lemma NewPasswordOpens(c: Crypto, cfg: Config, u: Update, content: string)
    requires Lawful(c) && u.NewPassword? && Checked(c, cfg, u) == Content(content)
    ensures Opens(c, Apply(c, cfg, u), u.next, content)
    ensures forall f | f == Hint || f.Other? || f == Params :: f in Apply(c, cfg, u) <==> f in cfg
    ensures forall f | f in cfg && (f == Hint || f.Other? || f == Params) :: Apply(c, cfg, u)[f] == cfg[f]
  {
    var key := c.derive(u.next, u.salt, ParamsOf(cfg));
    FieldsOfNewPassword(cfg, u.salt, ParamsOf(cfg), u.challenge, c.tag(key, u.challenge),
                        u.nonce, c.seal(key, u.nonce, content));
    var after := Apply(c, cfg, u);
    assert WrappingKey(c, after, u.next) == key;
    assert Unlock(c, after, u.next) == Content(content);
    forall p | Unlock(c, after, p).Content? ensures Unlock(c, after, p) == Content(content) {
      var other := WrappingKey(c, after, p);
      assert Unlock(c, after, p) == c.open(other, u.nonce, c.seal(key, u.nonce, content));
    }
  }

  /** A new hint changes nothing about any password. */
  lemma NewHintKeepsEveryPassword(c: Crypto, cfg: Config, u: Update)
    requires u.NewHint?
    ensures forall p :: Unlock(c, Apply(c, cfg, u), p) == Unlock(c, cfg, p)
    ensures Checked(c, cfg, u).Content? ==> Apply(c, cfg, u) == cfg[Hint := u.hint]
  {
    assert WriteAll(cfg, []) == cfg;
    assert [(Hint, u.hint)][..0] == [];
  }

  // ----------------------------------------------------------- any history

  function ApplyAll(c: Crypto, cfg: Config, log: seq<Update>): Config
  {
    if log == [] then cfg else Apply(c, ApplyAll(c, cfg, log[..|log| - 1]), log[|log| - 1])
  }

  /** A root without an envelope never gets one: whatever is tried on it, every field
      but the hint stays, and every password opens what it opened before. */
  lemma {:induction false} LegacyRootStays(c: Crypto, cfg: Config, log: seq<Update>)
    requires EnvelopeVersion !in cfg
    ensures var now := ApplyAll(c, cfg, log);
            && now - {Hint} == cfg - {Hint}
            && forall p :: Unlock(c, now, p) == Unlock(c, cfg, p)
  {
    if log != [] {
      var before, u := ApplyAll(c, cfg, log[..|log| - 1]), log[|log| - 1];
      LegacyRootStays(c, cfg, log[..|log| - 1]);
      assert EnvelopeVersion !in before - {Hint};
      if u.NewHint? {
        NewHintKeepsEveryPassword(c, before, u);
        assert before[Hint := u.hint] - {Hint} == before - {Hint};
      }
    }
  }

  /** Every change in the log passed its checks when its turn came. */
  ghost predicate Accepted(c: Crypto, cfg: Config, log: seq<Update>)
  {
    forall i | 0 <= i < |log| :: Checked(c, ApplyAll(c, cfg, log[..i]), log[i]).Content?
  }

  function CurrentPassword(first: string, log: seq<Update>): string
  {
    if log == [] then first
    else if log[|log| - 1].NewPassword? then log[|log| - 1].next
    else CurrentPassword(first, log[..|log| - 1])
  }

  /** After any accepted changes the last password set opens the root to the content
      key it was created with. */
  lemma {:induction false} LastPasswordOpens(c: Crypto, cfg: Config, log: seq<Update>, first: string, content: string)
    requires Lawful(c) && Opens(c, cfg, first, content) && Accepted(c, cfg, log)
    ensures Opens(c, ApplyAll(c, cfg, log), CurrentPassword(first, log), content)
    ensures EnvelopeVersion in ApplyAll(c, cfg, log) <==> EnvelopeVersion in cfg
  {
    if log != [] {
      var before, u := log[..|log| - 1], log[|log| - 1];
      assert Accepted(c, cfg, before) by {
        forall i | 0 <= i < |before| ensures Checked(c, ApplyAll(c, cfg, before[..i]), before[i]).Content? {
          assert before[..i] == log[..i];
        }
      }
      LastPasswordOpens(c, cfg, before, first, content);
      OneMoreOpens(c, ApplyAll(c, cfg, before), u, CurrentPassword(first, before), content);
    }
  }

  lemma OneMoreOpens(c: Crypto, now: Config, u: Update, password: string, content: string)
    requires Lawful(c) && Opens(c, now, password, content) && Checked(c, now, u).Content?
    ensures Opens(c, Apply(c, now, u), if u.NewPassword? then u.next else password, content)
    ensures EnvelopeVersion in Apply(c, now, u) <==> EnvelopeVersion in now
  {
    if u.NewPassword? {
      assert Unlock(c, now, u.current) == Content(content);
      NewPasswordOpens(c, now, u, content);
      var key := c.derive(u.next, u.salt, ParamsOf(now));
      FieldsOfNewPassword(now, u.salt, ParamsOf(now), u.challenge, c.tag(key, u.challenge),
                          u.nonce, c.seal(key, u.nonce, content));
    } else {
      NewHintKeepsEveryPassword(c, now, u);
    }
  }

  // ------------------------------------------------------- every other password

  /** No two passwords have one key, and no two keys one tag. */
  ghost predicate CollisionFree(c: Crypto)
  {
    && (forall p, q, salt, params :: c.derive(p, salt, params) == c.derive(q, salt, params) ==> p == q)
    && (forall k, j, challenge :: c.tag(k, challenge) == c.tag(j, challenge) ==> k == j)
  }

  /** The record's tag was made with this password. */
  predicate Proves(c: Crypto, cfg: Config, password: string)
  {
    && Salt in cfg && Challenge in cfg && Tag in cfg
    && cfg[Tag] == c.tag(c.derive(password, cfg[Salt], ParamsOf(cfg)), cfg[Challenge])
  }

  lemma OnePassword(c: Crypto, cfg: Config, p: string, q: string)
    requires CollisionFree(c) && Proves(c, cfg, p) && Proves(c, cfg, q)
    ensures p == q
  {
  }

  /** A record that one password opens refuses every other, with an envelope or without. */
  lemma OthersAreRefused(c: Crypto, cfg: Config, password: string, other: string)
    requires CollisionFree(c) && Unlock(c, cfg, password).Content? && other != password
    ensures Unlock(c, cfg, other) == WrongPassword
  {
    assert Proves(c, cfg, password);
    if Proves(c, cfg, other) {
      OnePassword(c, cfg, password, other);
    }
  }

  /** Which changes are accepted: those that know the password, a new password only
      where the content key has an envelope, a hint of at most 256 bytes. */
  predicate MayChange(cfg: Config, u: Update, password: string)
  {
    && u.current == password && password != ""
    && match u
       case NewPassword(_, next, _, _, _) => next != "" && EnvelopeVersion in cfg && Params in cfg
       case NewHint(_, hint) => |hint| <= 256
  }

  lemma AcceptedExactly(c: Crypto, cfg: Config, u: Update, password: string)
    requires CollisionFree(c) && Unlock(c, cfg, password).Content?
    ensures Checked(c, cfg, u).Content? <==> MayChange(cfg, u, password)
  {
    assert Proves(c, cfg, password);
    if u.current != password {
      OthersAreRefused(c, cfg, password, u.current);
      if Proves(c, cfg, u.current) {
        OnePassword(c, cfg, password, u.current);
      }
    }
  }

  /** The record can be read: versions are the one known, and nothing is missing. */
  predicate Readable(cfg: Config)
  {
    && {Salt, VerifierVersion, Challenge, Tag} <= cfg.Keys && cfg[VerifierVersion] == "1"
    && (EnvelopeVersion in cfg ==> cfg[EnvelopeVersion] == "1" && {Nonce, Ciphertext} <= cfg.Keys)
  }

  /** A password opens a record exactly if the record can be read, its tag was made with
      the password, and the envelope, if there is one, opens with the password's key. */
  lemma OpensExactly(c: Crypto, cfg: Config, p: string)
    ensures Unlock(c, cfg, p).Content? <==>
            && Readable(cfg) && Proves(c, cfg, p)
            && (EnvelopeVersion in cfg ==>
                  c.open(c.derive(p, cfg[Salt], ParamsOf(cfg)), cfg[Nonce], cfg[Ciphertext]).Content?)
  {
    assert {Nonce, Ciphertext} <= cfg.Keys <==> Nonce in cfg && Ciphertext in cfg;
    assert {Salt, VerifierVersion, Challenge, Tag} <= cfg.Keys <==>
           Salt in cfg && VerifierVersion in cfg && Challenge in cfg && Tag in cfg;
  }

  /** After any accepted changes the last password set gets the content key, and
      every other is told that it is wrong. */
  lemma OnlyLastPasswordOpens(c: Crypto, cfg: Config, log: seq<Update>, first: string, content: string, p: string)
    requires Lawful(c) && CollisionFree(c) && Opens(c, cfg, first, content) && Accepted(c, cfg, log)
    ensures Unlock(c, ApplyAll(c, cfg, log), p) ==
            if p == CurrentPassword(first, log) then Content(content) else WrongPassword
  {
    LastPasswordOpens(c, cfg, log, first, content);
    if p != CurrentPassword(first, log) {
      OthersAreRefused(c, ApplyAll(c, cfg, log), CurrentPassword(first, log), p);
    }
  }

  /** A root without an envelope opens for the password its tag was made with, to that
      password's own key, and for no other, whatever is tried on it. */
  lemma OnlyFirstPasswordOpensLegacy(c: Crypto, cfg: Config, log: seq<Update>, first: string, p: string)
    requires CollisionFree(c) && EnvelopeVersion !in cfg
    requires Proves(c, cfg, first) && VerifierVersion in cfg && cfg[VerifierVersion] == VERSION
    ensures Unlock(c, ApplyAll(c, cfg, log), p) ==
            if p == first then Content(c.derive(first, cfg[Salt], ParamsOf(cfg))) else WrongPassword
  {
    LegacyRootStays(c, cfg, log);
    if p != first {
      OthersAreRefused(c, cfg, first, p);
    }
  }
}
