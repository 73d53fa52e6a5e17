/**
  The `secrets` table row and the share request body of the backend, with
  Rust's `i32` written out as a range. Instants are integers counting
  nanoseconds; the store is the table as a map from id to row.
*/
module Models {
  import opened Wrappers

  /** Rust's `i32`, the width of the `Integer` columns and of the request numbers. */
  type i32 = x: int | FitsI32(x)

  predicate FitsI32(x: int) {
    -0x8000_0000 <= x < 0x8000_0000
  }

  type byte = x: int | 0 <= x < 256

  /** One row of `secrets`. */
  datatype Secret = Secret(
    id: string,
    ciphertext: seq<byte>,
    nonce: seq<byte>,
    expiresAt: int,
    maxViews: i32,
    viewCount: i32,
    createdAt: int)

  /** The JSON body of `POST /api/share`; both numbers are optional. */
  datatype ShareRequest = ShareRequest(secret: string, expireMinutes: Option<i32>, maxViews: Option<i32>)

  /** The `secrets` table, keyed by `id`. */
  type Store = map<string, Secret>

  /** Every row is filed under its own id. */
  predicate Keyed(store: Store) {
    forall k :: k in store ==> store[k].id == k
  }

  /** A row can still be read at `now`: not past its expiry and views left. */
  predicate Servable(s: Secret, now: int) {
    now <= s.expiresAt && s.viewCount < s.maxViews
  }

  /**
    The external collaborators, as oracles: the AES-GCM service (its
    `encrypt` yields base64 ciphertext and nonce), the base64 codec, and the
    text of the database error an insert with an existing id raises.
  */
  datatype Services = Services(
    encrypt: string -> Result<(string, string), string>,
    decrypt: (string, string) -> Result<string, string>,
    encodeBase64: seq<byte> -> string,
    decodeBase64: string -> Result<seq<byte>, string>,
    duplicateIdError: string)
}
