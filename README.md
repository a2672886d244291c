# Saved users and breadcrumbs: a verified Dafny model

This project models the two pieces of logic in a small user-directory web app.

- **The saved-users API route** (`src/pages/api/users.ts`). It keeps a durable
  collection of user records, keyed by email, in one JSON file. GET lists the
  collection. POST saves a record. It refuses a missing or empty email (400)
  and a duplicate email (409). DELETE removes every record with the given
  email. It refuses a missing email (400) and reports an absent one (404).
  Every other HTTP method gets 405 with an `Allow` list. A data file that is
  missing or unparsable reads as an empty collection.
- **The breadcrumb trail** (`src/components/Breadcrumbs.tsx`). The trail
  starts with a root link. Then it has one crumb for each non-empty segment
  of the current pathname. A crumb's href is the path up to its segment. Its
  label is the decoded segment with every dash shown as a space. Only the
  last crumb is the current page.

`users_api.dfy` (module `UsersApi`) is imperative, like the source:
- The class `UsersStore` holds the data file as a field, `file: StoreFile`.
  The file is `Missing`, `Unparsable` or `Written(users)`.
- `Users()` is `readUsers`, including its fallback to `[]`.
- `WriteUsers` overwrites the file.
- `Handle` is the route handler, and its contract covers every branch.
- The `find` and `filter` calls are the loop methods `FindByEmail` and
  `RemoveByEmail`. Each is proved against a specification: `HasEmail` for
  find, and the recursive filter `Without`.

The central invariant is `UniqueEmails`: no two stored records share an email.
`Handle` preserves it on every path.

`breadcrumbs.dfy` (module `Breadcrumbs`) is pure, like the source. `Split`,
`Join` and `NonEmpty` are JavaScript's `split`, `join` and `filter(Boolean)`.
`Href` builds the href for a segment and `ReplaceDashes` builds the label.
`Crumbs` and `Trail` give the rendered list. `decodeURIComponent` is the
function parameter `decode`, about which nothing is assumed.

Modelling choices:
- A user's `email` is an `Option<string>`; `None` means the email is absent.
  JavaScript truthiness (`!x`) becomes `Truthy`: absent and `""` are falsy.
- The other user fields are opaque strings; the handler never looks at them.
- A request body of `null` or `undefined` is `NoBody`. POST answers it with
  400. In DELETE, `const { email } = req.body` raises a TypeError before
  anything is answered. The model records this as the outcome `Thrown`, and
  the store is left unchanged.
- Response payloads carry the source's exact messages ("Invalid user data",
  "User already saved", "User saved", "Email is required", "User not found",
  "User deleted", "Method X Not Allowed").

## Model

| member | source | states |
|---|---|---|
| `UsersApi.UsersStore.Handle` | src/pages/api/users.ts:39-92 | GET answers 200 with the stored users verbatim, or `[]` when the file is missing or unparsable, and changes nothing. POST with no body or a falsy email answers 400 and changes nothing. POST with an email already stored (`===`) answers 409 and changes nothing. POST with a fresh email answers 201 with the record and writes the old collection with the record appended at the end. DELETE with no body throws. DELETE with a falsy email answers 400. DELETE of an absent email answers 404 without writing. DELETE of a present email answers 200 and writes the collection with every record of that email filtered out. Any other method answers 405 with `Allow: GET, POST, DELETE`. Every path preserves the no-shared-email invariant. |
| `UsersApi.UsersStore.WriteUsers` | src/pages/api/users.ts:29-31 | After a write, the file holds exactly the given array, whatever it held before. |
| `UsersApi.FindByEmail` | src/pages/api/users.ts:56 | Finds a record exactly when some stored record has that email. The record found is the first one with that email. |
| `UsersApi.RemoveByEmail` | src/pages/api/users.ts:78 | The loop computes the filter `Without`: it drops the records with that email and keeps the rest in order. |
| `UsersApi.CountZeroIffAbsent` | src/pages/api/users.ts:56 | No record carries the email exactly when `find` would find nothing. |
| `UsersApi.WithoutLength` | src/pages/api/users.ts:75-81 | The filter removes exactly as many records as carry the email. |
| `UsersApi.UniqueCountAtMostOne` | src/pages/api/users.ts:55-58 | Under the invariant, each email is stored at most once. |
| `UsersApi.WithoutMembership` | src/pages/api/users.ts:78 | A record survives DELETE's filter exactly when it was stored and its email differs. |
| `UsersApi.WithoutAppend` | src/pages/api/users.ts:78 | The filter distributes over concatenation, so the surviving records keep their relative order. |
| `UsersApi.WithoutAbsent` | src/pages/api/users.ts:74-83 | Filtering by an email that is not stored gives back the collection unchanged. |
| `UsersApi.WithoutShrinks` | src/pages/api/users.ts:75-83 | DELETE's `users.length === initialLength` test holds exactly when the email is absent. Under the invariant, deleting a present email drops the length by exactly one. |
| `UsersApi.WithoutRemovesAll` | src/pages/api/users.ts:78-85 | After DELETE, no record with that email remains. |
| `UsersApi.WithoutKeepsUnique` | src/pages/api/users.ts:74-86 | DELETE's filter preserves the no-shared-email invariant. |
| `UsersApi.AppendFreshKeepsUnique` | src/pages/api/users.ts:55-61 | Appending a record whose email is not yet stored preserves the invariant. |
| `UsersApi.SaveLeavesOne` | src/pages/api/users.ts:56-61 | After a successful POST, exactly one stored record carries the new email. |
| `UsersApi.SaveTwiceScenario` | src/pages/api/users.ts:14-63 | Start with no data file. POST answers 201, then GET lists `[u]`. The same POST again answers 409, and GET still lists `[u]`. |
| `UsersApi.DeleteTwiceScenario` | src/pages/api/users.ts:40-87 | Start with a store holding `[u]`. DELETE answers 200, then GET lists `[]`. The same DELETE again answers 404. |
| `Breadcrumbs.Split` | src/components/Breadcrumbs.tsx:15 | `split("/")` gives one more piece than there are separators. |
| `Breadcrumbs.JoinSplit` | src/components/Breadcrumbs.tsx:15 | Joining the pieces of a split with the separator restores the pathname, so no character is lost or reordered. |
| `Breadcrumbs.SplitPiecesAvoidSeparator` | src/components/Breadcrumbs.tsx:15 | No piece of a split contains the separator. |
| `Breadcrumbs.SplitJoin` | src/components/Breadcrumbs.tsx:30 | Splitting a join of separator-free pieces gives the pieces back. |
| `Breadcrumbs.NonEmptyMembership` | src/components/Breadcrumbs.tsx:15 | `filter(Boolean)` keeps exactly the non-empty pieces. |
| `Breadcrumbs.NonEmptyAppend` | src/components/Breadcrumbs.tsx:15 | The filter distributes over concatenation, so the segments stay in path order. |
| `Breadcrumbs.SegmentsWellFormed` | src/components/Breadcrumbs.tsx:15 | No segment is empty or contains a slash. Leading, trailing and repeated slashes are all collapsed. |
| `Breadcrumbs.SegmentsKeepCharacters` | src/components/Breadcrumbs.tsx:15 | The segments, laid end to end, are the pathname with its slashes removed. |
| `Breadcrumbs.RootPathHasOnlyRootCrumb` | src/components/Breadcrumbs.tsx:15-25 | `"/"` has no segments, so the trail is the root link alone. |
| `Breadcrumbs.SegmentsOfSavedPath` | src/components/Breadcrumbs.tsx:15 | `"/saved/"` has the single segment `"saved"`. |
| `Breadcrumbs.TrailingSlashDropped` | src/components/Breadcrumbs.tsx:28-36 | `"/saved/"` gives one crumb. It links to `"/saved"` and is the current page. |
| `Breadcrumbs.Crumbs` | src/components/Breadcrumbs.tsx:28-36 | There is one crumb per segment. No label contains a dash. A crumb is the current page exactly when it is the last one. |
| `Breadcrumbs.ReplaceDashes` | src/components/Breadcrumbs.tsx:33 | `replace(/-/g, " ")` keeps the length, turns every dash into a space and leaves every other character unchanged. The result contains no dash. |
| `Breadcrumbs.HrefExtends` | src/components/Breadcrumbs.tsx:30 | The href of crumb i+1 is the href of crumb i, then a slash, then segment i+1. |
| `Breadcrumbs.HrefStrictPrefix` | src/components/Breadcrumbs.tsx:30 | Each href is a proper prefix of every later crumb's href. |
| `Breadcrumbs.HrefsDistinct` | src/components/Breadcrumbs.tsx:30-39 | Hrefs grow strictly in length along the trail, so they are pairwise distinct and the list keys are unique. |
| `Breadcrumbs.SplitRooted` | src/components/Breadcrumbs.tsx:30 | A slash followed by the join of non-empty, slash-free segments splits into a leading empty piece and those segments. |
| `Breadcrumbs.LastHrefNormalised` | src/components/Breadcrumbs.tsx:15-30 | The last href is `"/"` plus the segments joined by `"/"`. It splits into a leading empty piece and exactly the pathname's segments, so it has no repeated and no trailing slash. It has the same segments as the pathname. |
| `Breadcrumbs.OneCurrentPage` | src/components/Breadcrumbs.tsx:21-54 | With at least one segment, exactly one crumb of the trail, the last, is the current page; the root link and every earlier crumb are links. With no segment, no crumb is current. |
| `Breadcrumbs.CrumbFollowsSegment` | src/components/Breadcrumbs.tsx:28-33 | Crumb i comes from segment i. Its label is that segment, decoded, with dashes shown as spaces. Its href is `"/"` plus segment 0 for the first crumb, and for a later crumb the previous href, a slash and segment i. |

## Left out

- File I/O and JSON: `fs.readFileSync`/`writeFileSync`, `JSON.parse`/`stringify` and the pretty-printing. The file is the field `file`, and a read failure or parse failure is a state of it (`Missing`, `Unparsable`).
- A data file that parses to JSON other than an array of user objects (a number, an object, an array holding `null`). `find` and `filter` would then throw. The model assumes that the file is missing, unparsable, or an array of records.
- Emails that are JSON values other than strings (numbers, booleans, `null`) are modelled as absent (`None`). This agrees with the source for `null` but not for truthy non-strings, which the source would store.
- A POST body that is a truthy non-object (a bare string, say) reads `email` as `undefined` and answers 400. The model has no such body. Its answer, 400, is the same as for `Body` with a missing email.
- `req.method` being `undefined` (the 405 text would read "Method undefined Not Allowed"). The method is always a string here.
- How Next.js turns the `Thrown` outcome of a body-less DELETE into an HTTP response.
- Races between concurrent requests in the read-check-write of POST and DELETE. Requests are handled one at a time.
- The weather proxy (`src/pages/api/weather.ts`). It is a thin wrapper over an upstream `fetch` and holds no state.
- All React rendering, animation, `alert`/`confirm` and client-side `fetch` code (UserCard, WeatherModal, Header, the pages). The row-to-user reshaping in `src/pages/saved.tsx` is not part of this model. The handler stores and returns records unchanged, and no relational backend is among the files modelled.
- `decodeURIComponent` is the opaque parameter `decode`. Its `URIError` on a malformed escape is not modelled.
- `String.prototype.split` is modelled for a one-character separator only, the only way the source calls it.
