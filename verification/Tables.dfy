/** The Postgres tables that block execution reads and writes, as values.

    A database transaction is a saved `Tables` value: beginning one remembers the
    current value, committing keeps the new one, rolling back restores the old. */
module TableModel {
  import opened Wrappers

  newtype byte = x: int | 0 <= x < 256
  type Bytes = seq<byte>

  /** A version-5 UUID (RFC 4122 section 4.3) is a digest of its name. Digests are
      modelled as injective, so the id is its name. */
  datatype UUID = V5(name: Bytes)

  datatype Account = Account(balance: int, nonce: int)
  type Ledger = map<Bytes, Account>

  /** A votable event observed on another chain. */
  datatype Event = Event(typ: string, body: Bytes)

  /** A row of `resolutions`. The `type` column is NULL (`None`) when the name was
      not found in `resolution_types` at insertion. */
  datatype Resolution = Resolution(body: Bytes, typ: Option<string>, proposer: Bytes, expiration: int)

  datatype Tables = Tables(
    accounts: Ledger,
    voters: map<Bytes, int>,            // name -> power
    resolutions: map<UUID, Resolution>,
    votes: set<(UUID, Bytes)>,          // (resolution, voter)
    processed: set<UUID>,
    events: map<UUID, Event>,           // this node's event store
    datasets: int                       // everything the engine stores, opaque here
  )

  class Database {
    var t: Tables

    constructor (t: Tables)
      ensures this.t == t
    {
      this.t := t;
    }
  }

  const INT64_MAX := 0x7FFF_FFFF_FFFF_FFFF
  const TWO_TO_64 := 0x1_0000_0000_0000_0000

  /** Go's conversion of a 64-bit pattern to int64 (two's complement). */
  function ToInt64(x: int): (r: int)
    ensures -INT64_MAX - 1 <= r <= INT64_MAX
    ensures r == x <==> -INT64_MAX - 1 <= x <= INT64_MAX
    ensures (r - x) % TWO_TO_64 == 0
  {
    var m := x % TWO_TO_64;
    if m <= INT64_MAX then m else m - TWO_TO_64
  }

  /** The bytes of a name. Names are ASCII; other characters are outside the model. */
  function Ascii(s: string): Bytes
  {
    seq(|s|, i requires 0 <= i < |s| => (s[i] as int % 256) as byte)
  }

  function EventID(e: Event): UUID
  {
    V5(Ascii(e.typ) + e.body)
  }

  function ToLower(s: string): string
  {
    seq(|s|, i requires 0 <= i < |s| => if 'A' <= s[i] <= 'Z' then s[i] - 'A' + 'a' else s[i])
  }
}
