/**
 The tables of the hub and the record that peers are shown.

 A table is a map from its primary key.  Flags are keyed by (fingerprint, consumer), which is their
 unique constraint.  Free-text cells hold whatever the encryption layer produced; they are opaque here.
 */
module Schema {
  import opened Wrappers

  datatype Status = Active | Hidden | Deleted

  /** Fingerprints are comparable only under the same compatibility triple. */
  datatype Triple = Triple(algorithm: string, algorithmVersion: string, normalizationVersion: string)

  /** The three encrypted cells that only owners and admins may read. */
  datatype Secrets = Secrets(sourceGuild: Option<string>, reason: Option<string>, sourceUrl: Option<string>)

  const NO_SECRETS := Secrets(None, None, None)

  datatype Row = Row(
    syncSeq: nat,
    phash: string,
    triple: Triple,
    category: string,
    action: string,
    consumer: int,
    secrets: Secrets,
    addedAt: int,
    updatedAt: int,
    hitCount: nat,
    lastHitAt: Option<int>,
    autoAdded: bool,
    provenance: string,
    status: Status,
    flagCount: nat)

  datatype FlagRow = FlagRow(reason: Option<string>, createdAt: int)

  datatype HitRow = HitRow(fingerprint: int, consumer: int, guild: Option<string>, distance: Option<int>, hitAt: int)

  /** `counter` is the last value the sync sequence gave out; `nextId` and `nextHitId` are the next identities. */
  datatype Db = Db(
    rows: map<int, Row>,
    flags: map<(int, int), FlagRow>,
    hits: map<int, HitRow>,
    counter: nat,
    nextId: nat,
    nextHitId: nat)

  const EMPTY_DB := Db(map[], map[], map[], 0, 0, 0)

  /** The record the sync feed shares with a non-owning consumer. */
  datatype Peer = Peer(
    id: int,
    syncSeq: nat,
    phash: string,
    triple: Triple,
    category: string,
    action: string,
    status: Status)

  function PeerOf(id: int, row: Row): Peer {
    Peer(id, row.syncSeq, row.phash, row.triple, row.category, row.action, row.status)
  }

  /** The record is of this row and says the same of it, column by column. */
  predicate Mirrors(p: Peer, id: int, row: Row) {
    && p.id == id && p.syncSeq == row.syncSeq && p.phash == row.phash && p.triple == row.triple
    && p.category == row.category && p.action == row.action && p.status == row.status
  }

  /** What a peer can see of a row apart from its version number. */
  function Content(row: Row): (string, Triple, string, string, Status) {
    (row.phash, row.triple, row.category, row.action, row.status)
  }

  /** The distinct consumers whose flag on `id` is stored. */
  function Flaggers(flags: map<(int, int), FlagRow>, id: int): set<int> {
    set k | k in flags && k.0 == id :: k.1
  }

  function FlagRows(flags: map<(int, int), FlagRow>, id: int): set<(int, int)> {
    set k | k in flags && k.0 == id
  }

  function HitRows(hits: map<int, HitRow>, id: int): set<int> {
    set h | h in hits && hits[h].fingerprint == id
  }

  /** Flags are unique per consumer, so counting distinct consumers counts flag rows. */
  lemma {:induction false} FlaggersCountFlagRows(flags: map<(int, int), FlagRow>, id: int)
    ensures |Flaggers(flags, id)| == |FlagRows(flags, id)|
    decreases |FlagRows(flags, id)|
  {
    if k :| k in FlagRows(flags, id) {
      var rest := flags - {k};
      assert FlagRows(rest, id) == FlagRows(flags, id) - {k};
      assert Flaggers(rest, id) == Flaggers(flags, id) - {k.1} by {
        forall c | c in Flaggers(flags, id) && c != k.1 ensures c in Flaggers(rest, id) {
          assert (id, c) in rest;
        }
      }
      assert k.1 in Flaggers(flags, id);
      FlaggersCountFlagRows(rest, id);
    } else {
      assert Flaggers(flags, id) == {} by {
        forall c ensures c !in Flaggers(flags, id) {
          assert (id, c) !in FlagRows(flags, id);
        }
      }
    }
  }
}
