# WebAuthn second factor for NextAuth: a verified model

This project models the core of a NextAuth.js example that adds WebAuthn
passkeys as a second factor. It has two parts.

- **The base64url codec** of `lib/convert.ts` (module `Base64Url`, file
  `convert.dfy`). `toBase64` writes standard base64 (section 4 of RFC 4648).
  It then substitutes `/`→`_` and `+`→`-`, which gives the URL-safe alphabet
  of section 5 of RFC 4648. Last, it removes the trailing `=` padding, as
  section 3.2 of RFC 4648 allows. `fromBase64` undoes the substitution and
  decodes. Both are written out over byte and character sequences. The
  proofs cover the round trip both ways, the alphabet, the length, the
  padding, the substitutions and compositionality per group of 3 bytes.
- **The WebAuthn registration and authentication-options handlers**, as
  methods that change an in-memory store.
  - `PrismaStore.PrismaDb` stands for the Prisma `user` table (a map by id)
    and the `authenticator` table (a sequence of rows with owner ids).
  - `KvStore.Kv` stands for the two key families of the key-value store:
    `user:<id>` and `user:authenticator:by-user-id:<id>`.
  - `RegisterOld` models `pages/api/2fa/webauthn/register-old.ts`.
    `RegisterRoute` models `app/api/2fa/webauthn/register/route.ts`.
    `AuthenticatePage` models `pages/api/2fa/webauthn/authenticate.ts`.
    `AuthenticateRoute` models `app/api/2fa/webauthn/authenticate/route.ts`.
  - The session, the generated challenge and the verify library are inputs.
    The verify library is a function from the expected challenge to an
    outcome: it either throws a message or returns `verified` and an
    optional `registrationInfo`.
  - Each handler's contract states its response (status and body) for every
    branch. It also states which records change and how. Every other field
    and table stays as it was.
  - `Ceremonies` runs handlers in sequence: enrolment followed by
    authentication options, a registration response posted twice, and
    options for a user with no authenticator.

The model follows the code where the code differs from an idealised
ceremony:

- No handler clears `currentChallenge` after a POST. So one registration
  challenge can be used again (`Ceremonies.ReplayedRegistration`).
- `verified` is never checked before the authenticator is stored.
- The key-value route keeps one authenticator per user; a new registration
  overwrites the old one. Its GET always sends an empty exclusion list.
- Authentication options need no enrolment. A user with no authenticators
  gets 200, an empty allow list and a stored challenge.
- `if (expectedChallenge)` is a JavaScript truthiness test. A `null`
  challenge and an empty `""` challenge both count as absent
  (`WebAuthnTypes.HasChallenge`).
- The two variants answer differently when no challenge is stored or
  `registrationInfo` is incomplete. The Prisma variant sends 400
  "Invalid response"; the key-value variant sends 401 "Unauthorized".
- In `register-old.ts`, a method other than GET or POST gets no response
  at all (`NoResponse`). In `pages/api/2fa/webauthn/authenticate.ts` it
  gets 405.
- The key-value POST does not check the session's id. An undefined id
  reads and writes the keys `user:undefined` and
  `user:authenticator:by-user-id:undefined` (`KvStore.KeyPart`).
- Decoding is lenient, not exact. Well-formed input with non-zero unused
  bits in the last group decodes to the same bytes as its canonical form:
  "AB" and "AA" both give `[0]`. Decoding and encoding are therefore
  inverses only on canonical strings (`CanonicalRoundTrip`). Those are
  exactly the strings `toBase64` produces (`ToBase64Canonical`). The
  malformed-input error that a stricter design would add does not exist
  in the code.

Bytes are the newtype `Base64Url.Byte` (0..255), standing for the
elements of a `Uint8Array`/`Buffer`.

## Model

| member | source | states |
|---|---|---|
| `Base64Url.RoundTrip` | lib/convert.ts:1-11 | for every byte sequence, `toBase64` yields well-formed base64url and `fromBase64` of it gives the bytes back |
| `Base64Url.ToBase64Injective` | lib/convert.ts:1-6 | two byte sequences with the same encoding are equal |
| `Base64Url.ToBase64Alphabet` | lib/convert.ts:3-6 | every output character is in `A-Z a-z 0-9 - _`; none is `/`, `+` or `=` |
| `Base64Url.ToBase64Length` | lib/convert.ts:3-6 | the output has 4 characters per whole group of 3 bytes plus 0, 2 or 3 for a remainder of 0, 1 or 2 bytes, i.e. ceil(4n/3); it never has length 1 mod 4 |
| `Base64Url.ToBase64Repadded` | lib/convert.ts:3-6 | padding the output with `=` to a multiple of 4 gives the standard encoding with `/` and `+` substituted, so only trailing `=` were removed |
| `Base64Url.TrimPadding` | lib/convert.ts:6 | `replace(/=+$/, "")` leaves a prefix, removes only `=`, and leaves no `=` at the end |
| `Base64Url.StdSubstitutionInverse` | lib/convert.ts:4-10 | on standard-alphabet strings the decoder's substitution undoes the encoder's, and the encoder's yields only URL-alphabet characters |
| `Base64Url.UrlSubstitutionInverse` | lib/convert.ts:4-10 | on URL-alphabet strings the encoder's substitution undoes the decoder's, and the decoder's yields only standard-alphabet characters |
| `Base64Url.ToBase64Append` | lib/convert.ts:1-6 | the encoding of `a + b` is the encoding of `a` followed by that of `b` whenever `a` is whole groups of 3 bytes; the empty input encodes to "" |
| `Base64Url.ToBase64Letters` | lib/convert.ts:1-6 | the whole chain equals the URL-alphabet letters of the input's 6-bit groups, with no padding |
| `Base64Url.Sextets` | lib/convert.ts:3 | the 6-bit groups of standard base64 are all below 64 |
| `Base64Url.SextetsLength` | lib/convert.ts:3 | there are 4 groups per 3 bytes and 2 or 3 for a final 1 or 2 bytes |
| `Base64Url.DecodeSextetsInverse` | lib/convert.ts:8-11 | the decoder's merge of 6-bit groups into bytes inverts the encoder's split for every input |
| `Base64Url.SextetsOfDecode` | lib/convert.ts:8-11 | on canonical 6-bit groups, splitting the decoded bytes again gives the groups back |
| `Base64Url.CanonicalRoundTrip` | lib/convert.ts:1-11 | on canonical input, `toBase64(fromBase64(s)) == s` |
| `Base64Url.ToBase64Canonical` | lib/convert.ts:1-6 | every output of `toBase64` is canonical (unused bits of the last group are zero) |
| `Base64Url.DecodeIgnoresTrailingBits` | lib/convert.ts:8-11 | "AB" and "AA" both decode to `[0]`: decoding is not injective on all well-formed input |
| `PrismaStore.OwnedByMembership` | pages/api/2fa/webauthn/register-old.ts:38-42 | an authenticator is listed for a user if and only if a row owned by that user holds it |
| `PrismaStore.OwnedByAppend` | pages/api/2fa/webauthn/register-old.ts:38-42 | the per-user listing keeps table order: it distributes over concatenation of tables |
| `PrismaStore.AppendRow` | pages/api/2fa/webauthn/register-old.ts:116-130 | appending a row adds one entry at the end of its owner's listing and changes no other user's listing |
| `PrismaStore.OwnedByNone` | pages/api/2fa/webauthn/authenticate.ts:31-35 | a user with no rows has an empty listing |
| `PrismaStore.PrismaDb.FindUser` | pages/api/2fa/webauthn/register-old.ts:26-30 | finds a user exactly when the session id is defined and present, and the record found carries that id |
| `PrismaStore.PrismaDb.SetChallenge` | pages/api/2fa/webauthn/register-old.ts:66-73 | sets only this user's `currentChallenge`; every other record and the authenticator table are unchanged |
| `PrismaStore.PrismaDb.Enable2FA` | pages/api/2fa/webauthn/register-old.ts:133-140 | sets only this user's `is2FAEnabled`; everything else is unchanged |
| `PrismaStore.PrismaDb.CreateAuthenticator` | pages/api/2fa/webauthn/register-old.ts:116-130 | appends exactly one row owned by the user; the user's listing gains it at the end, other users' listings and the user table are unchanged |
| `KvStore.Kv.SetUser` | app/api/2fa/webauthn/register/route.ts:45-48 | overwrites the one `user:<id>` record and nothing else |
| `KvStore.Kv.SetAuthenticator` | app/api/2fa/webauthn/register/route.ts:112-119 | overwrites the single authenticator slot of the user, replacing any earlier one, and nothing else |
| `RegisterOld.Handler` | pages/api/2fa/webauthn/register-old.ts:14-144 | 401 with nothing written without session or user; GET: 200, options with the user's credential IDs in table order as `public-key` exclusions, `none`/`required`/`preferred`, and only `currentChallenge` set; POST: 400 "Invalid response" without a challenge (verify not consulted), 400 with the thrown message, 400 when ID or key is missing, all writing nothing; otherwise one authenticator appended with counter 0 / not backed up / single-device defaults, `is2FAEnabled` set, challenge kept, `verified` not checked; other methods: no response, nothing written |
| `RegisterRoute.Get` | app/api/2fa/webauthn/register/route.ts:9-55 | 401 and nothing written without session, with an undefined or empty session id (the `!userId` test), or without `user:<id>`; otherwise 200 with an empty exclusion list, and the record rewritten with the new challenge and all other fields kept |
| `RegisterRoute.Post` | app/api/2fa/webauthn/register/route.ts:57-131 | 401 without session or record; 401 without a challenge (verify not consulted); 400 JSON error when verify throws; 401 when ID or key is missing, all writing nothing; otherwise the single authenticator slot overwritten with the defaults, the record rewritten with `is2FAEnabled` and the challenge kept, and `{verified}` returned |
| `AuthenticatePage.Handler` | pages/api/2fa/webauthn/authenticate.ts:9-63 | 401 and nothing written without session or user; GET: 200 with every credential ID of the user in table order as `public-key`, `preferred`, `localhost`, and only `currentChallenge` set; other methods: 405 "Method not allowed", nothing written |
| `AuthenticateRoute.Get` | app/api/2fa/webauthn/authenticate/route.ts:8-56 | 401 and nothing written without session or user; otherwise always 200 with the user's credential IDs in order, `preferred`, `localhost`, and only `currentChallenge` set |
| `Ceremonies.EnrollThenAuthenticate` | pages/api/2fa/webauthn/register-old.ts:37-142 | registering and then asking for authentication options succeeds throughout, allows the new credential after the earlier ones, turns 2FA on, and leaves the authentication challenge stored |
| `Ceremonies.AuthenticateWithoutEnrollment` | pages/api/2fa/webauthn/authenticate.ts:30-60 | a user with no authenticators still gets 200, an empty allow list and a stored challenge |
| `Ceremonies.ReplayedRegistration` | app/api/2fa/webauthn/register/route.ts:72-129 | for a non-empty id with a record, after one GET two POSTs with the same challenge both succeed; the challenge stays, and the second authenticator replaces the first |

## Left out

- FromBase64: specified only for well-formed unpadded base64url (URL-alphabet characters, length not 1 mod 4). Node's `Buffer` decoder accepts any string and decodes it leniently; that behaviour belongs to the library and is not modelled.
- Library internals of `@simplewebauthn/server`: challenge generation, signature and attestation checking, and origin and RP-ID matching. The challenge is a parameter; verification is a function of the expected challenge. Option fields that only the library adds (`pubKeyCredParams`, `timeout`, `user` encoding) are not modelled.
- Prisma's `findUnique` with an undefined id is modelled as finding no user, giving 401. Prisma's own rejection of such a query is library behaviour.
- Failures of the store itself (a rejected `update`, `create` or `kv.set`), a request body that is not JSON, and the resulting 500 responses are not modelled. Nor are awaiting and concurrent requests.
- Prisma's generated authenticator id, the `transports` column and schema constraints such as a unique `credentialID` are not shown in the code and are not modelled.
- The key-value store is two maps, one per key family. A collision between `user:<id>` and `user:authenticator:by-user-id:<id'>` for a contrived user id is not modelled.
- The production/development switch of the relying-party ID is the `production` parameter of `RegisterRoute.Get`. Origins are not modelled; the key-value POST's `origin` is an identifier the file never defines.
- `console.error` logging and HTTP headers.
- The NextAuth credentials provider (authentication finish, which writes `currentChallenge: ""`) and the JWT callback that derives `is2FAVerified` are not part of this model. The login page and the UI components are not part of it either.
