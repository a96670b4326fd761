# Access-point tracker: a verified model of its core

The system tracks physical access points, such as wheelchair lifts and interpreter
stations. Each has a kind, a geocoded location and an operational status. Clients
report status changes, and user accounts subscribe to the points they follow. This
project models four sequential pieces of that system in Dafny and proves their
contracts:

- **`Ap`** (`ap.rs`): access-point kinds and the normalisation `simplify`, which turns free
  text naming a known kind into that kind. It also covers the `Debug`-based display name,
  the status and its default, one access point whose status is overwritten in place, and
  the collection of points keyed by identifier.
- **`Reports`** (`report.rs`): a report (target point, optional description, new status)
  built with fluent setters, and `fulfill`, which applies it to the collection.
- **`Accounts`** (`user.rs`): the user registry keyed by username. It covers account
  creation with an external password hash, subscribing a user to a point, lookup, the
  subscriber query, the in-memory copy `save` makes, and the HTTP status each user route
  answers with.
- **`ServiceWorker`** (`service.js`): `urlBase64ToUint8Array`, which turns the push
  server's base64url key into bytes. It pads to a multiple of four and maps the URL-safe
  alphabet (section 5 of RFC 4648) to the standard one (section 4 of RFC 4648). Then it
  decodes with `atob` and copies the character codes into a byte array. `atob` is modelled
  as the HTML standard's forgiving-base64 decoder.

`Wrappers` holds `Option` and `Outcome` (Rust's `Result<(), ()>`).

The model keeps the source's form. Things the source changes in place are classes:
`AccessPoint` (`set_status`), `AccessPoints` (its map of points) and `Users` (its map of
accounts). Each mutating method states the whole new state in terms of the old one.
The loops of `simplify`, of `save` and of `urlBase64ToUint8Array` are `for`/`while` loops
with invariants. Everything else is a pure function.

The model follows the code as written:
- `fulfill` only sets the point's status. It does not query subscribers or send
  notifications.
- There is no operation that creates an access point, and no identifier assignment.
- A status carries no separate display string.

Calls into external libraries (`bcrypt`, `serde_json`) and the geocoder are parameters or abstract:
- `bcrypt::hash` is a function `string -> Option<string>`, where `None` is a hashing failure.
- `serde_json::to_string` in `get_user` is a function `User -> Option<string>`.
- A point's `Geocoding` location is an abstract type.

## Model

| member | source | states |
|---|---|---|
| `Ap.Variants` | access-point-api/src/ap.rs:18-24 | the iteration yields three kinds, in declaration order: `Wheelchair`, `Interpreter`, and the open variant with the empty string |
| `Ap.EscapeChar` | access-point-api/src/ap.rs:26-30 | a character of a `Debug`-rendered string is written as a two-character backslash escape exactly when it is NUL, tab, CR, LF, backslash or double quote, and as itself otherwise (the `\u{…}` escapes are not modelled; see Left out) |
| `Ap.Escape` | access-point-api/src/ap.rs:26-30 | the escaped text is never shorter than the input, equals it when no character needs escaping, and starts with a backslash when the first character does |
| `Ap.Display` | access-point-api/src/ap.rs:26-30 | the fixed kinds display as their variant names; free text displays as `Any("`, the escaped text and `")`, so the escaped text can be cut back out of the display name |
| `Ap.EscapeInjective` | access-point-api/src/ap.rs:26-30 | the `Debug` rendering of a string determines the string |
| `Ap.DisplayInjective` | access-point-api/src/ap.rs:26-30 | distinct kinds have distinct display names, so at most one variant can match a text in `simplify` |
| `Ap.Simplify` | access-point-api/src/ap.rs:33-46 | the loop over all variants (the last match wins) computes the reference simplification: a fixed kind is kept; free text becomes the variant it names, and is kept otherwise |
| `Ap.LastMatchIsSimplified` | access-point-api/src/ap.rs:36-42 | the last variant whose display name equals the text, defaulting to the text itself, is the reference simplification |
| `Ap.VariantNames` | access-point-api/src/ap.rs:37-38 | the text names a variant exactly when it is `Wheelchair`, `Interpreter` or `Any("")` |
| `Ap.SimplifyKeepsFixedKinds` | access-point-api/src/ap.rs:44 | `Wheelchair` and `Interpreter` are returned unchanged |
| `Ap.SimplifyMatchesDisplayName` | access-point-api/src/ap.rs:26-41 | free text equal to a variant's display name becomes that variant (`Any("Wheelchair")` becomes `Wheelchair`, `Any("Interpreter")` becomes `Interpreter`) |
| `Ap.SimplifyKeepsUnknownText` | access-point-api/src/ap.rs:36-42 | free text naming no variant is returned as the same free text |
| `Ap.SimplifyRewritesOpenVariantName` | access-point-api/src/ap.rs:37-41 | as written, the free text `Any("")` (the open variant's own display name) is replaced by the empty free text |
| `Ap.SimplifiedIsSimplified` | access-point-api/src/ap.rs:50-52 | the result of `simplify` is simplified, and a simplified kind is a fixed point, which backs the "guaranteed simplified" type |
| `Ap.SimplifyIdempotent` | access-point-api/src/ap.rs:33-46 | simplifying twice is the same as simplifying once |
| `Ap.DefaultStatus` | access-point-api/src/ap.rs:54-60 | the default status is `NotWorking` |
| `Ap.AccessPoint.constructor` | access-point-api/src/ap.rs:62-67 | a point holds exactly the given kind, location and status |
| `Ap.AccessPoint.SetStatus` | access-point-api/src/ap.rs:70-72 | afterwards the status is the given one; kind and location are unchanged |
| `Ap.AccessPoints.Records` | access-point-api/src/ap.rs:77-80 | the collection's value has exactly the stored identifiers as keys |
| `Ap.AccessPoints.constructor` | access-point-api/src/ap.rs:77-80 | a new collection is empty, and each point is owned by one entry |
| `Reports.New` | access-point-api/src/report.rs:10-15 | a new report targets the given point, with no description and status `NotWorking` |
| `Reports.WithDescription` | access-point-api/src/report.rs:17-20 | sets the description to `Some(d)` and keeps point and status |
| `Reports.WithStatus` | access-point-api/src/report.rs:22-25 | sets the status change and keeps point and description |
| `Reports.SettersCommute` | access-point-api/src/report.rs:17-25 | the two setters can be applied in either order |
| `Reports.LastSetterWins` | access-point-api/src/report.rs:17-25 | a later call of the same setter overrides an earlier one |
| `Reports.Fulfilled` | access-point-api/src/report.rs:28-32 | applying a report keeps the key set and every other point. A present target takes the report's status and keeps its kind and location; with the target absent nothing changes |
| `Reports.FulfilledIdempotent` | access-point-api/src/report.rs:28-32 | applying the same report twice gives the same records as applying it once |
| `Reports.Fulfill` | access-point-api/src/report.rs:28-32 | `Ok` exactly when the target is stored. The new records are the old ones with the report applied, so an absent id gives `Err` and no change. Ownership of the points is preserved |
| `Accounts.NewUser` | access-point-api/src/user.rs:37-43 | fails exactly when hashing fails; otherwise the user has the given username, the hash as password, and no access points |
| `Accounts.WithAccessPoint` | access-point-api/src/user.rs:140-142 | the user's set becomes the old set with the id added. Username and password are kept, and every other account and the key set are unchanged |
| `Accounts.WithAccessPointIdempotent` | access-point-api/src/user.rs:140-142 | subscribing to the same point twice is the same as once |
| `Accounts.Users.constructor` | access-point-api/src/user.rs:99-103 | a new registry is empty |
| `Accounts.Users.Snapshot` | access-point-api/src/user.rs:115-120 | the copy `save` builds entry by entry equals the stored map |
| `Accounts.Users.Add` | access-point-api/src/user.rs:126-132 | a taken username gives `Err` and no change. A fresh one gives `Ok` and stores the user under its username with every other entry unchanged. "Every key is its record's username" is preserved |
| `Accounts.Users.AddAccessPoint` | access-point-api/src/user.rs:136-145 | an unknown user gives `Err` and no change. A known user gives `Ok` and exactly the `WithAccessPoint` update. The key invariant is preserved |
| `Accounts.Users.Get` | access-point-api/src/user.rs:147-152 | returns the record stored under the username, and `None` exactly when it is absent |
| `Accounts.Users.UsersWithAccessPoint` | access-point-api/src/user.rs:154-164 | contains the username of every account whose set holds the id, and nothing else. Under the key invariant it is exactly the keys whose set holds the id |
| `Accounts.CreateUserStatus` | access-point-api/src/user.rs:55-64 | `InternalServerError` exactly when no user was built; otherwise `Conflict` exactly when `add` failed and `Ok` exactly when it succeeded |
| `Accounts.AddAccessPointStatus` | access-point-api/src/user.rs:75-78 | `Ok` for success and `NotFound` for failure |
| `Accounts.CreateUser` | access-point-api/src/user.rs:53-65 | hashing failure gives `InternalServerError` and a taken username gives `Conflict`, both with no change. Otherwise `Ok`, with the new user (hashed password, no points) stored |
| `Accounts.AddAccessPointRoute` | access-point-api/src/user.rs:74-79 | an unknown user gives `NotFound` and no change; otherwise `Ok` and the subscription is added |
| `Accounts.GetUserRoute` | access-point-api/src/user.rs:82-88 | `Ok` with the serialised account exactly when the user exists and serialisation succeeds; otherwise `NotFound` with no body |
| `ServiceWorker.PaddingLength` | access-point-ui/public/service.js:2 | the padding is below 4 and makes the length a multiple of 4; a length already a multiple of 4 gets none |
| `ServiceWorker.Pad` | access-point-ui/public/service.js:2-3 | the padded string is the input followed by only `=`, and its length is a multiple of 4 |
| `ServiceWorker.ReplaceAll` | access-point-ui/public/service.js:4-5 | a global one-character replacement keeps the length and replaces exactly the occurrences of the pattern |
| `ServiceWorker.UrlToStandard` | access-point-ui/public/service.js:3-5 | same length; every `-` becomes `+`, every `_` becomes `/`, every other character is kept |
| `ServiceWorker.UrlToStandardAlphabet` | access-point-ui/public/service.js:3-5 | no `-` or `_` remains, and a string over the URL-safe alphabet becomes one over the standard alphabet |
| `ServiceWorker.Atob` | access-point-ui/public/service.js:7 | `atob` fails exactly when forgiving-base64 decoding fails; every decoded character code is below 256 |
| `ServiceWorker.BinaryString` | access-point-ui/public/service.js:7 | the decoded string has one character per byte, and each character's code is that byte |
| `ServiceWorker.ToUint8` | access-point-ui/public/service.js:11 | storing a character code below 256 into the byte array keeps it |
| `ServiceWorker.CharCodes` | access-point-ui/public/service.js:8-12 | the byte sequence has the decoded string's length, and element `i` is the code of character `i` |
| `ServiceWorker.UrlBase64ToBytes` | access-point-ui/public/service.js:1-14 | the result is absent exactly when `atob` throws on the padded, substituted input. Otherwise it has the decoded string's length, and byte `i` is the code of decoded character `i` |
| `ServiceWorker.CopyCharCodes` | access-point-ui/public/service.js:8-12 | the index-by-index loop fills a freshly allocated array, of the decoded string's length, with exactly the character codes of that string |
| `ServiceWorker.UrlBase64ToUint8Array` | access-point-ui/public/service.js:1-14 | returns a freshly allocated array holding exactly the bytes of `UrlBase64ToBytes`, and nothing where `atob` throws |
| `ServiceWorker.Base64UrlEncode` | access-point-ui/public/service.js:30 | the unpadded base64url form of a key, as published, has a length that is not 1 mod 4 and only URL-safe characters |
| `ServiceWorker.UrlBase64RoundTrip` | access-point-ui/public/service.js:1-14 | converting the unpadded base64url encoding of any byte string gives back exactly those bytes |
| `ServiceWorker.LengthOneModFourFails` | access-point-ui/public/service.js:2-7 | a whitespace-free input of length 4k+1 is padded with three `=`, which `atob` rejects |
| `ServiceWorker.UrlSafeExample` | access-point-ui/public/service.js:1-14 | `-_8` converts to the bytes 0xFB 0xFF |
| `ServiceWorker.StandardRejectsUrlSafe` | access-point-ui/public/service.js:3-7 | without the substitution, `atob("-_8=")` fails, so the substitution is needed |

## Left out

- access-point-api/src/main.rs: static file serving, environment lookup and framework start-up. All of it is I/O.
- access-point-api/src/notification.rs: an unfinished stub with no logic. It does not compile, and push signing and encryption would be foreign cryptography anyway.
- access-point-api/src/map_geo.rs: its `f32` coordinates are floating point. A point's location is the abstract type `Ap.Geocoding`, of which nothing is assumed but equality.
- `bcrypt::hash` and `serde_json::to_string` are parameters, so salting, one-wayness and the JSON format are not modelled.
- `Users::load`, the JSON serialisation and file write in `save`, and the `stage()` start-up and shutdown hooks are file and JSON I/O. Only the in-memory copy in `save` is modelled (`Accounts.Users.Snapshot`), so the save/load round trip is not stated.
- The `Arc<Mutex<…>>` locking only makes each call atomic. Each registry call is one sequential method.
- The `println!` calls in `create_user` are logging, which is I/O.
- The commented-out `get_ap` route is not code.
- service.js `saveSubscription`, the `activate` and `push` listeners and the push manager are network and browser APIs. access-point-ui/public/index.js, vite.config.ts, src/useraps.ts and src/login.ts are UI wiring with no logic.
- Creating access points and assigning identifiers: the source has no such code.
- Ap.EscapeChar, and with it Ap.Escape and Ap.Display: the `\u{…}` escapes that Rust's `Debug` writes for non-printable and grapheme-extending characters are not modelled; those characters are written as themselves. The only display name `simplify` compares against that contains free text is that of `Any("")`, so `simplify` is modelled exactly.
- Ap.AccessPointType: the subset type holds only simplified kinds. The source promises this in a comment only, and its derived `Deserialize` would accept an unsimplified kind.
- Ap.APID: this models a 64-bit `usize`.
- Accounts.Users.UsersWithAccessPoint: returns a set rather than a `Vec`. The `Vec`'s order follows the `HashMap`'s unspecified iteration order. It has no repeated names while every account is stored under its own username.
- ServiceWorker.Atob: Dafny characters are Unicode scalar values, while JavaScript strings are UTF-16 code units. Every character outside the base64 alphabet is rejected either way.
