/**
 The reversible column rewrite of revision 0002.

 `upgrade` puts every text of five columns into an envelope and `downgrade` takes it out again.  A stored text
 may begin like an envelope by coincidence, so only authenticated decryption tells the two apart.
 */
module Migration {
  import opened Wrappers
  import Base64
  import opened Text
  import opened FieldEncryption

  type Cells = map<int, Option<string>>

  type Environment = Result<Keyring, ConfigError>

  // ---- what one cell becomes ----

  predicate Authentic(c: Cipher, value: string, ring: Keyring) {
    Decrypt(c, value, ring).Ok?
  }

  function Sealed(c: Cipher, value: string, ring: Keyring, nonce: Bytes): string
    requires ring.active in ring.keys
  {
    if Authentic(c, value, ring) then value else Envelope(c, value, ring.active, ring.keys[ring.active], nonce)
  }

  function Opened(c: Cipher, value: string, ring: Keyring): string {
    match Decrypt(c, value, ring)
    case Ok(text) => text
    case Err(_) => value
  }

  function Upgraded(c: Cipher, cells: Cells, ring: Keyring, nonces: int -> Bytes): Cells
    requires ring.active in ring.keys
  {
    map id | id in cells :: if cells[id].Some? then Some(Sealed(c, cells[id].value, ring, nonces(id))) else None
  }

  function Downgraded(c: Cipher, cells: Cells, ring: Keyring): Cells {
    map id | id in cells :: if cells[id].Some? then Some(Opened(c, cells[id].value, ring)) else None
  }

  ghost predicate TwelveBytes(nonces: int -> Bytes) {
    forall id :: |nonces(id)| == NONCE_BYTES
  }

  // ---- the rewrite itself ----

  datatype Failure = Configuration(config: ConfigError) | Decryption(crypt: CryptError)

  /** Shaped like an envelope; this much is settled before the keyring is loaded. */
  predicate Shaped(value: string) {
    IsEncrypted(value)
    && var parts := SplitAtMost(value, ':', 4);
       |parts| == 5 && parts[0] == "enc" && parts[1] == "v1"
  }

  /** Decryption under the keyring of the environment. */
  function DecryptText(c: Cipher, value: string, env: Environment): Result<string, Failure> {
    if !IsEncrypted(value) then Err(Decryption(NotAnEnvelope))
    else if !Shaped(value) then Err(Decryption(Malformed))
    else
      match env
      case Err(e) => Err(Configuration(e))
      case Ok(ring) =>
        match Decrypt(c, value, ring)
        case Err(e) => Err(Decryption(e))
        case Ok(text) => Ok(text)
  }

  function EncryptWith(c: Cipher, value: string, env: Environment, nonce: Bytes): Result<string, Failure> {
    match env
    case Err(e) => Err(Configuration(e))
    case Ok(ring) =>
      match EncryptText(c, value, ring, None, nonce)
      case Err(_) => Err(Configuration(ActiveUnknown))
      case Ok(text) => Ok(text)
  }

  ghost predicate Usable(env: Environment) {
    env.Ok? ==> WellFormed(env.value)
  }

  /** Whatever the environment holds, the parser makes it usable or refuses it. */
  lemma ParsedIsUsable(raw: Option<string>, active: Option<string>)
    ensures Usable(Parse(raw, active))
  {
    if Parse(raw, active).Ok? {
      AcceptedIsWellFormed(raw, active);
    }
  }

  /** Rewriting this text takes a keyring. */
  predicate NeedsKeys(value: string, encrypt: bool) {
    encrypt || Shaped(value)
  }

  ghost predicate ColumnNeedsKeys(cells: Cells, encrypt: bool) {
    exists id :: id in cells && cells[id].Some? && NeedsKeys(cells[id].value, encrypt)
  }

  ghost function Target(c: Cipher, cells: Cells, env: Environment, nonces: int -> Bytes, encrypt: bool): Cells
    requires Usable(env)
  {
    if env.Err? then cells
    else if encrypt then Upgraded(c, cells, env.value, nonces)
    else Downgraded(c, cells, env.value)
  }

  /** What one text becomes. */
  ghost function TargetCell(c: Cipher, value: string, env: Environment, nonce: Bytes, encrypt: bool): string
    requires Usable(env)
  {
    if env.Err? then value else if encrypt then Sealed(c, value, env.value, nonce) else Opened(c, value, env.value)
  }

  lemma TargetAt(c: Cipher, cells: Cells, env: Environment, nonces: int -> Bytes, encrypt: bool, id: int)
    requires Usable(env) && id in cells && cells[id].Some?
    ensures id in Target(c, cells, env, nonces, encrypt)
    ensures Target(c, cells, env, nonces, encrypt)[id] == Some(TargetCell(c, cells[id].value, env, nonces(id), encrypt))
  {
  }

  lemma TargetKeepsNulls(c: Cipher, cells: Cells, env: Environment, nonces: int -> Bytes, encrypt: bool)
    requires Usable(env)
    ensures Target(c, cells, env, nonces, encrypt).Keys == cells.Keys
    ensures forall id :: id in cells && cells[id].None? ==> Target(c, cells, env, nonces, encrypt)[id] == None
  {
  }

  /** How the outcome of a decryption decides what becomes of a cell. */
  lemma OutcomeDecides(c: Cipher, value: string, env: Environment, nonce: Bytes)
    requires Usable(env)
    ensures match DecryptText(c, value, env)
            case Ok(text) =>
              && env.Ok? && IsEncrypted(value) && TargetCell(c, value, env, nonce, true) == value
              && TargetCell(c, value, env, nonce, false) == text
            case Err(Configuration(e)) => env == Err(e) && NeedsKeys(value, false)
            case Err(Decryption(_)) =>
              && TargetCell(c, value, env, nonce, false) == value && (env.Err? ==> !NeedsKeys(value, false))
              && (env.Ok? ==> EncryptWith(c, value, env, nonce) == Ok(TargetCell(c, value, env, nonce, true)))
    ensures env.Err? ==> EncryptWith(c, value, env, nonce) == Err(Configuration(env.error))
  {
  }

  /** Part-way through: the pending cells are as they were, the others as they should become. */
  ghost predicate Partway(rows: Cells, cells: Cells, target: Cells, pending: set<int>) {
    && cells.Keys == rows.Keys && target.Keys == rows.Keys
    && forall id :: id in rows ==> cells[id] == if id in pending then rows[id] else target[id]
  }

  lemma CellDone(rows: Cells, cells: Cells, target: Cells, pending: set<int>, id: int)
    requires Partway(rows, cells, target, pending) && id in pending && id in rows
    ensures Partway(rows, cells[id := target[id]], target, pending - {id})
    ensures rows[id] == target[id] ==> cells[id := target[id]] == cells
  {
  }

  lemma AllDone(rows: Cells, cells: Cells, target: Cells, pending: set<int>)
    requires Partway(rows, cells, target, pending) && pending == {}
    ensures cells == target
  {
    assert forall id :: id in rows ==> cells[id] == target[id];
  }

  /** None of the cells already passed by needed keys. */
  ghost predicate NoneNeeded(rows: Cells, pending: set<int>, encrypt: bool) {
    forall id :: id in rows && rows[id].Some? && id !in pending ==> !NeedsKeys(rows[id].value, encrypt)
  }

  class Column {
    var cells: Cells

    constructor (cells: Cells)
      ensures this.cells == cells
    {
      this.cells := cells;
    }

    /**
     Every non-null cell in turn, in no particular order.  Without a usable keyring the rewrite stops at the
     first cell that needs one, before anything has been written.
     */
    method Rewrite(c: Cipher, env: Environment, nonces: int -> Bytes, encrypt: bool)
        returns (failure: Option<ConfigError>)
      requires Usable(env)
      modifies this
      ensures cells == Target(c, old(cells), env, nonces, encrypt)
      ensures failure == if env.Err? && ColumnNeedsKeys(old(cells), encrypt) then Some(env.error) else None
    {
      var rows := cells;
      ghost var target := Target(c, rows, env, nonces, encrypt);
      TargetKeepsNulls(c, rows, env, nonces, encrypt);
      var pending := set id | id in rows && rows[id].Some?;
      while pending != {}
        invariant forall id :: id in pending ==> id in rows && rows[id].Some?
        invariant Partway(rows, cells, target, pending)
        invariant env.Err? ==> cells == rows && NoneNeeded(rows, pending, encrypt)
        decreases |pending|
      {
        HasMember(pending);
        var id :| id in pending;
        var value := rows[id].value;
        TargetAt(c, rows, env, nonces, encrypt, id);
        OutcomeDecides(c, value, env, nonces(id));
        CellDone(rows, cells, target, pending, id);
        pending := pending - {id};
        var rewritten;
        if encrypt {
          if IsEncrypted(value) {
            var plain := DecryptText(c, value, env);
            match plain {
              case Ok(_) => continue;
              case Err(Configuration(e)) => return Some(e);
              case Err(Decryption(_)) =>
            }
          }
          var written := EncryptWith(c, value, env, nonces(id));
          if written.Err? { return Some(written.error.config); }
          rewritten := written.value;
        } else {
          if !IsEncrypted(value) { continue; }
          var plain := DecryptText(c, value, env);
          match plain {
            case Ok(text) => rewritten := text;
            case Err(Configuration(e)) => return Some(e);
            case Err(Decryption(_)) => continue;
          }
        }
        cells := cells[id := Some(rewritten)];
      }
      AllDone(rows, cells, target, pending);
      return None;
    }
  }

  /** The five columns that name a community or quote a member. */
  class Tables {
    const sourceGuildId: Column
    const reason: Column
    const sourceUrl: Column
    const hitGuildId: Column
    const flagReason: Column

    constructor (sourceGuildId: Column, reason: Column, sourceUrl: Column, hitGuildId: Column, flagReason: Column)
      requires sourceGuildId !in {reason, sourceUrl, hitGuildId, flagReason} &&
        reason !in {sourceUrl, hitGuildId, flagReason}
      requires sourceUrl !in {hitGuildId, flagReason} && hitGuildId != flagReason
      ensures Valid()
      ensures this.sourceGuildId == sourceGuildId && this.reason == reason && this.sourceUrl == sourceUrl
      ensures this.hitGuildId == hitGuildId && this.flagReason == flagReason
    {
      this.sourceGuildId, this.reason, this.sourceUrl := sourceGuildId, reason, sourceUrl;
      this.hitGuildId, this.flagReason := hitGuildId, flagReason;
    }

    ghost function All(): set<Column> {
      {sourceGuildId, reason, sourceUrl, hitGuildId, flagReason}
    }

    ghost predicate Valid() {
      && sourceGuildId !in {reason, sourceUrl, hitGuildId, flagReason}
      && reason !in {sourceUrl, hitGuildId, flagReason}
      && sourceUrl !in {hitGuildId, flagReason}
      && hitGuildId != flagReason
    }

    ghost function Contents(): (s: seq<Cells>)
      reads All()
      ensures |s| == 5
    {
      [sourceGuildId.cells, reason.cells, sourceUrl.cells, hitGuildId.cells, flagReason.cells]
    }

    /** One direction of the migration; `nonces` gives the bytes drawn for a column and a row. */
    method Migrate(c: Cipher, env: Environment, nonces: nat -> int -> Bytes, encrypt: bool)
        returns (failure: Option<ConfigError>)
      requires Valid() && Usable(env)
      modifies All()
      ensures Contents() == Targets(c, old(Contents()), env, nonces, encrypt)
      ensures failure == if env.Err? && AnyNeedsKeys(old(Contents()), encrypt) then Some(env.error) else None
    {
      FiveTargets(c, Contents(), env, nonces, encrypt);
      failure := sourceGuildId.Rewrite(c, env, nonces(0), encrypt);
      if failure.Some? { return; }
      failure := reason.Rewrite(c, env, nonces(1), encrypt);
      if failure.Some? { return; }
      failure := sourceUrl.Rewrite(c, env, nonces(2), encrypt);
      if failure.Some? { return; }
      failure := hitGuildId.Rewrite(c, env, nonces(3), encrypt);
      if failure.Some? { return; }
      failure := flagReason.Rewrite(c, env, nonces(4), encrypt);
    }

    method Upgrade(c: Cipher, env: Environment, nonces: nat -> int -> Bytes) returns (failure: Option<ConfigError>)
      requires Valid() && Usable(env)
      modifies All()
      ensures Contents() == Targets(c, old(Contents()), env, nonces, true)
      ensures failure == if env.Err? && AnyNeedsKeys(old(Contents()), true) then Some(env.error) else None
    {
      failure := Migrate(c, env, nonces, true);
    }

    method Downgrade(c: Cipher, env: Environment, nonces: nat -> int -> Bytes) returns (failure: Option<ConfigError>)
      requires Valid() && Usable(env)
      modifies All()
      ensures Contents() == Targets(c, old(Contents()), env, nonces, false)
      ensures failure == if env.Err? && AnyNeedsKeys(old(Contents()), false) then Some(env.error) else None
    {
      failure := Migrate(c, env, nonces, false);
    }
  }

  ghost function Targets(c: Cipher, columns: seq<Cells>, env: Environment, nonces: nat -> int -> Bytes,
      encrypt: bool): (s: seq<Cells>)
    requires Usable(env)
    ensures |s| == |columns|
  {
    seq(|columns|, i requires 0 <= i < |columns| => Target(c, columns[i], env, nonces(i), encrypt))
  }

  lemma FiveTargets(c: Cipher, columns: seq<Cells>, env: Environment, nonces: nat -> int -> Bytes, encrypt: bool)
    requires Usable(env) && |columns| == 5
    ensures Targets(c, columns, env, nonces, encrypt) ==
            [Target(c, columns[0], env, nonces(0), encrypt), Target(c, columns[1], env, nonces(1), encrypt),
             Target(c, columns[2], env, nonces(2), encrypt), Target(c, columns[3], env, nonces(3), encrypt),
             Target(c, columns[4], env, nonces(4), encrypt)]
    ensures env.Err? ==> Targets(c, columns, env, nonces, encrypt) == columns
    ensures AnyNeedsKeys(columns, encrypt) <==>
            || ColumnNeedsKeys(columns[0], encrypt) || ColumnNeedsKeys(columns[1], encrypt)
            || ColumnNeedsKeys(columns[2], encrypt)
            || ColumnNeedsKeys(columns[3], encrypt) || ColumnNeedsKeys(columns[4], encrypt)
  {
    if env.Err? { NoKeysNoWrites(c, columns, env.error, nonces, encrypt); }
  }

  ghost predicate AnyNeedsKeys(columns: seq<Cells>, encrypt: bool) {
    exists i :: 0 <= i < |columns| && ColumnNeedsKeys(columns[i], encrypt)
  }

  // ---- what the migration means ----

  /** The text a stored value stands for: the decryption of an authentic envelope, anything else as it is. */
  lemma SealedMeansTheSame(c: Cipher, value: string, ring: Keyring, nonce: Bytes)
    requires Sound(c) && WellFormed(ring) && |nonce| == NONCE_BYTES
    ensures Decrypt(c, Sealed(c, value, ring, nonce), ring) == Ok(Opened(c, value, ring))
  {
    if !Authentic(c, value, ring) {
      EnvelopeOpens(c, value, ring.active, nonce, ring);
    }
  }

  /** The value opens to some text: it is an authentic envelope. */
  ghost predicate OpensToSome(c: Cipher, ring: Keyring, value: string) {
    exists text :: Opens(c, ring, value, text)
  }

  lemma AuthenticIff(c: Cipher, value: string, ring: Keyring)
    requires WellFormed(ring)
    ensures Authentic(c, value, ring) <==> OpensToSome(c, ring, value)
    ensures forall text :: Opens(c, ring, value, text) ==> Opened(c, value, ring) == text
    ensures !OpensToSome(c, ring, value) ==> Opened(c, value, ring) == value
  {
    if Authentic(c, value, ring) {
      DecryptIff(c, value, ring, Decrypt(c, value, ring).value);
    }
    forall text | Opens(c, ring, value, text) ensures Decrypt(c, value, ring) == Ok(text) {
      DecryptIff(c, value, ring, text);
    }
  }

  /** What an upgrade makes of a text: an authentic envelope stays, anything else is sealed under the active key. */
  ghost predicate UpgradedTo(c: Cipher, value: string, ring: Keyring, nonce: Bytes, after: string)
    requires ring.active in ring.keys
  {
    if OpensToSome(c, ring, value) then after == value
    else Opens(c, ring, after, value) && SealedUnder(c, after, ring.active, ring.keys[ring.active], nonce, value)
  }

  lemma SealedIsUpgraded(c: Cipher, value: string, ring: Keyring, nonce: Bytes)
    requires Sound(c) && WellFormed(ring) && |nonce| == 12
    ensures UpgradedTo(c, value, ring, nonce, Sealed(c, value, ring, nonce))
  {
    AuthenticIff(c, value, ring);
    if !Authentic(c, value, ring) {
      var key := ring.keys[ring.active];
      EnvelopeOpens(c, value, ring.active, nonce, ring);
      DecryptIff(c, Envelope(c, value, ring.active, key, nonce), ring, value);
      EnvelopeIsSealed(c, value, ring.active, key, nonce);
    }
  }

  /**
   After an upgrade every non-null cell is an authentic envelope of what the cell stood for, under the active key
   and the nonce drawn for its row unless it was one before; null cells stay null.
   */
  lemma UpgradeSealsEveryCell(c: Cipher, cells: Cells, ring: Keyring, nonces: int -> Bytes)
    requires Sound(c) && WellFormed(ring) && TwelveBytes(nonces)
    ensures Upgraded(c, cells, ring, nonces).Keys == cells.Keys
    ensures forall id :: id in cells ==>
              match cells[id]
              case None => Upgraded(c, cells, ring, nonces)[id] == None
              case Some(value) =>
                var after := Upgraded(c, cells, ring, nonces)[id];
                && after.Some? && UpgradedTo(c, value, ring, nonces(id), after.value)
                && IsEncrypted(after.value) && Decrypt(c, after.value, ring) == Ok(Opened(c, value, ring))
  {
    forall id | id in cells && cells[id].Some?
      ensures UpgradedTo(c, cells[id].value, ring, nonces(id), Upgraded(c, cells, ring, nonces)[id].value)
      ensures Decrypt(c, Upgraded(c, cells, ring, nonces)[id].value, ring) == Ok(Opened(c, cells[id].value, ring))
    {
      SealedMeansTheSame(c, cells[id].value, ring, nonces(id));
      SealedIsUpgraded(c, cells[id].value, ring, nonces(id));
    }
  }

  /** A downgrade puts in each non-null cell the text it opens to, and leaves alone what opens to nothing. */
  lemma DowngradeOpensEveryCell(c: Cipher, cells: Cells, ring: Keyring)
    requires WellFormed(ring)
    ensures Downgraded(c, cells, ring).Keys == cells.Keys
    ensures forall id :: id in cells ==>
              match cells[id]
              case None => Downgraded(c, cells, ring)[id] == None
              case Some(value) =>
                var after := Downgraded(c, cells, ring)[id];
                && after.Some?
                && (if OpensToSome(c, ring, value) then Opens(c, ring, value, after.value) else after.value == value)
  {
    forall id | id in cells && cells[id].Some?
      ensures var value := cells[id].value;
              if OpensToSome(c, ring, value) then Opens(c, ring, value, Opened(c, value, ring))
              else Opened(c, value, ring) == value
    {
      AuthenticIff(c, cells[id].value, ring);
    }
  }

  /**
   A text in the very form of an envelope under a configured key, which the cipher refuses, is sealed by an upgrade
   like any other and left alone by a downgrade, before it or after.
   */
  lemma CollisionSurvives(c: Cipher, value: string, ring: Keyring, id: string, nonce64: string, sealed64: string,
      row: int, nonces: int -> Bytes)
    requires Sound(c) && WellFormed(ring) && TwelveBytes(nonces)
    requires IsEnvelopeOf(ring, value, id, nonce64, sealed64)
    requires c.open(ring.keys[id], Base64.Decode(nonce64).value, Base64.Decode(sealed64).value) == None
    ensures var cells: Cells := map[row := Some(value)];
            var up := Upgraded(c, cells, ring, nonces);
            && up[row].Some?
            && SealedUnder(c, up[row].value, ring.active, ring.keys[ring.active], nonces(row), value)
            && Downgraded(c, cells, ring) == cells && Downgraded(c, up, ring) == cells
  {
    var cells: Cells := map[row := Some(value)];
    EnvelopeDecrypts(c, value, ring, id, nonce64, sealed64);
    AuthenticIff(c, value, ring);
    SealedIsUpgraded(c, value, ring, nonces(row));
    DowngradeUndoesUpgrade(c, cells, ring, ring, nonces);
    assert Downgraded(c, cells, ring)[row] == Some(value);
  }

  /** A second upgrade changes nothing, whatever nonces it would draw. */
  lemma SecondUpgradeIsIdle(c: Cipher, cells: Cells, ring: Keyring, nonces: int -> Bytes, nonces': int -> Bytes)
    requires Sound(c) && WellFormed(ring) && TwelveBytes(nonces)
    ensures Upgraded(c, Upgraded(c, cells, ring, nonces), ring, nonces') == Upgraded(c, cells, ring, nonces)
  {
    var once := Upgraded(c, cells, ring, nonces);
    var twice := Upgraded(c, once, ring, nonces');
    forall id | id in cells ensures twice[id] == once[id] {
      if cells[id].Some? {
        SealedMeansTheSame(c, cells[id].value, ring, nonces(id));
      }
    }
  }

  /**
   A downgrade after an upgrade leaves what a downgrade alone would have left, even when keys were added and
   another key made active in between.
   */
  lemma DowngradeUndoesUpgrade(c: Cipher, cells: Cells, ring: Keyring, ring': Keyring, nonces: int -> Bytes)
    requires Sound(c) && WellFormed(ring) && TwelveBytes(nonces)
    requires forall id :: id in ring.keys ==> id in ring'.keys && ring'.keys[id] == ring.keys[id]
    ensures Downgraded(c, Upgraded(c, cells, ring, nonces), ring') == Downgraded(c, cells, ring)
  {
    forall id | id in cells && cells[id].Some?
      ensures Opened(c, Sealed(c, cells[id].value, ring, nonces(id)), ring') == Opened(c, cells[id].value, ring)
    {
      SealedMeansTheSame(c, cells[id].value, ring, nonces(id));
      MoreKeysSameText(c, Sealed(c, cells[id].value, ring, nonces(id)), ring, ring');
    }
  }

  /**
   Exactly when the round trip is the identity.  Texts that only look like envelopes come back unharmed; an
   authentic envelope that was there before the upgrade does not, unless it opens to itself.
   */
  lemma RoundTripIsIdentity(c: Cipher, cells: Cells, ring: Keyring, nonces: int -> Bytes)
    requires Sound(c) && WellFormed(ring) && TwelveBytes(nonces)
    ensures Downgraded(c, Upgraded(c, cells, ring, nonces), ring) == cells <==>
            forall id, text :: id in cells && cells[id].Some? && Opens(c, ring, cells[id].value, text) ==>
              text == cells[id].value
  {
    DowngradeUndoesUpgrade(c, cells, ring, ring, nonces);
    DowngradeOpensEveryCell(c, cells, ring);
    var back := Downgraded(c, cells, ring);
    forall id | id in cells && cells[id].Some?
      ensures forall text :: Opens(c, ring, cells[id].value, text) ==> back[id] == Some(text)
    {
      AuthenticIff(c, cells[id].value, ring);
    }
    if forall id, text :: id in cells && cells[id].Some? && Opens(c, ring, cells[id].value, text) ==>
         text == cells[id].value
    {
      assert forall id :: id in cells ==> back[id] == cells[id];
      assert back == cells;
    }
  }

  /** A cell that held an authentic envelope before the upgrade comes back as its plain text instead. */
  lemma AuthenticCellComesBackOpen(c: Cipher, text: string, ring: Keyring, nonce: Bytes, nonces: int -> Bytes)
    requires Sound(c) && WellFormed(ring) && |nonce| == NONCE_BYTES && TwelveBytes(nonces) && !IsEncrypted(text)
    ensures var cell := Envelope(c, text, ring.active, ring.keys[ring.active], nonce);
            var back := Downgraded(c, Upgraded(c, map[0 := Some(cell)], ring, nonces), ring);
            back == map[0 := Some(text)] && text != cell
  {
    var cell := Envelope(c, text, ring.active, ring.keys[ring.active], nonce);
    EnvelopeOpens(c, text, ring.active, nonce, ring);
    EnvelopeHasPrefix(c, text, ring.active, ring.keys[ring.active], nonce);
    DowngradeUndoesUpgrade(c, map[0 := Some(cell)], ring, ring, nonces);
  }

  /** Without a usable keyring nothing is ever half done: the tables are as they were. */
  lemma NoKeysNoWrites(c: Cipher, columns: seq<Cells>, e: ConfigError, nonces: nat -> int -> Bytes, encrypt: bool)
    ensures Targets(c, columns, Err(e), nonces, encrypt) == columns
  {
    var none: Environment := Err(e);
    assert forall i :: 0 <= i < |columns| ==> Target(c, columns[i], none, nonces(i), encrypt) == columns[i];
    assert forall i :: 0 <= i < |columns| ==> Targets(c, columns, none, nonces, encrypt)[i] == columns[i];
  }

  /** Each column draws its own nonces. */
  lemma TablesUpgraded(c: Cipher, columns: seq<Cells>, ring: Keyring, nonces: nat -> int -> Bytes, i: nat, id: int)
    requires Sound(c) && WellFormed(ring) && i < |columns| && TwelveBytes(nonces(i))
    requires id in columns[i] && columns[i][id].Some?
    ensures var after := Targets(c, columns, Ok(ring), nonces, true)[i];
            && id in after && after[id].Some?
            && UpgradedTo(c, columns[i][id].value, ring, nonces(i)(id), after[id].value)
  {
    UpgradeSealsEveryCell(c, columns[i], ring, nonces(i));
  }

  /** Upgrade then downgrade over all five columns, when no text was an authentic envelope to begin with. */
  lemma TablesRoundTrip(c: Cipher, columns: seq<Cells>, ring: Keyring, nonces: nat -> int -> Bytes,
      nonces': nat -> int -> Bytes)
    requires Sound(c) && WellFormed(ring) && forall i: nat :: TwelveBytes(nonces(i))
    requires forall i, id :: 0 <= i < |columns| && id in columns[i] && columns[i][id].Some? ==>
      !OpensToSome(c, ring, columns[i][id].value)
    ensures Targets(c, Targets(c, columns, Ok(ring), nonces, true), Ok(ring), nonces', false) == columns
  {
    var up := Targets(c, columns, Ok(ring), nonces, true);
    var back := Targets(c, up, Ok(ring), nonces', false);
    forall i | 0 <= i < |columns| ensures back[i] == columns[i] {
      ColumnRoundTrip(c, columns[i], ring, nonces(i));
      assert up[i] == Upgraded(c, columns[i], ring, nonces(i));
    }
  }

  lemma ColumnRoundTrip(c: Cipher, cells: Cells, ring: Keyring, nonces: int -> Bytes)
    requires Sound(c) && WellFormed(ring) && TwelveBytes(nonces)
    requires forall id :: id in cells && cells[id].Some? ==> !OpensToSome(c, ring, cells[id].value)
    ensures Downgraded(c, Upgraded(c, cells, ring, nonces), ring) == cells
  {
    RoundTripIsIdentity(c, cells, ring, nonces);
  }

  /** The shape that makes a downgrade load the keyring: the prefix, and at least two more colons. */
  lemma ShapedIff(value: string)
    ensures Shaped(value) <==>
            exists id: string, nonce64: string, rest: string :: IsShape(value, id, nonce64, rest)
  {
    var parts := SplitAtMost(value, ':', 4);
    JoinSplitAtMost(value, ':', 4);
    if Shaped(value) {
      assert parts == ["enc", "v1", parts[2], parts[3], parts[4]];
      JoinFive("enc", "v1", parts[2], parts[3], parts[4]);
      HeadJoins(parts[2], parts[3], parts[4]);
      assert IsShape(value, parts[2], parts[3], parts[4]);
    }
    if id: string, nonce64: string, rest: string :| IsShape(value, id, nonce64, rest) {
      FiveParts(value, id, nonce64, rest);
    }
  }

  ghost predicate IsShape(value: string, id: string, nonce64: string, rest: string) {
    value == "enc:v1:" + id + ":" + nonce64 + ":" + rest && Without(id, ':') && Without(nonce64, ':')
  }
}
