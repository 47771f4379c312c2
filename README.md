# dronecov in Dafny

A model of the server of dronecov, a coverage-badge service. CI jobs POST a
coverage percentage for a user/repo/branch with a bearer token; the service
keeps every report and renders the latest one as a coloured SVG badge. A
command-line branch of the same program provisions the tokens.

The model has six modules:

- `Tables` (tables.dfy): the two tables (`CoverageInfo`, `AccessToken`) as
  values, the badge query `Latest` (filter by user/repo/branch, newest
  `created_at`) and the token query `FindToken` (filter by username and token).
- `Badge` (badge.dfy): `coverage_precision`, `format_coverage`,
  `render_color`, `colormap` and the decision in `get_coverage_svg`. Label text
  is a sequence of pieces: literal characters, or a value printed with a
  given number of fractional digits (the digits themselves are not modelled).
  A rounding reference (`RoundedUnits`, `WidestFit`) explains the precision
  tiers: for a coverage in [0, 999.5) they pick the most fractional digits, up
  to two, that keep the numeral within three significant digits, and 0 when
  no width fits. (A negative coverage, which the program accepts unchecked,
  gets two digits, e.g. "-50.00"; from 999.5 on no width fits three
  significant digits and the label is "100".)
- `Auth` (auth.dfy): `check_authorization` and `token_can_access`, returning
  `Authorized`, `UnauthorizedHeader` (401) or `TokenUnauthorized` (403).
- `Ingest` (ingest.dfy): the JSON payload, the `float()`/`int()` conversions
  of a JSON value, `validate_coverage_report`, and `Decide`, the outcome of
  `update_coverage` as a function.
- `Tokens` (tokens.dfy): `generate_token` as a function of the 32 random
  alphabet positions, its inverse, and the `user/repo` argument split of the
  token command (a `str.split` model with its join round trip).
- `Storage` (storage.dfy): class `Store`, the database, with the two
  operations that append to it in place (`UpdateCoverage`, `IssueToken`), the
  cross-operation lemmas (ingest then render, issue then authorize) and an
  end-to-end `Session` against a fresh store.

Inputs the program takes from its environment are parameters: the
Authorization header (`None` when absent), the query arguments, the decoded
JSON body, the clock value at insert, the random alphabet positions, and the
string conversions of `float()` and `int()` (`Ingest.Parsers`; `None` where
Python raises).

Points where the model follows the code closely:

- The build number is passed to the row as the integer `int()` returns,
  though the column is declared `String(8)` (dronecov.py:28, 113-116).
- `order_by(created_at.desc()).first()` (dronecov.py:90) does not determine
  which of several reports with equal `created_at` is returned; `Latest`
  promises only that no matching report is newer.
- The label suffix is the character reference `&#8201;` (thin space U+2009)
  followed by `%`.

## Model

| member | source | states |
|---|---|---|
| `Tables.Latest` | dronecov.py:87-90 | None iff no stored report has that user, repo and branch; otherwise a stored report of that triple that no matching report is newer than |
| `Tables.LatestIgnoresOthers` | dronecov.py:87-90 | appending a report of another triple leaves the latest report of this triple unchanged |
| `Tables.LatestAfterNewer` | dronecov.py:87-90 | appending a report strictly newer than all reports of its triple makes it the latest |
| `Tables.Matches` | dronecov.py:87-89 | a report matches the badge query iff its username, repository and branch are those of the request |
| `Tables.Grants` | dronecov.py:123 | a token row answers the lookup iff it has that username and that token value |
| `Tables.Status.Code` | dronecov.py:71-146 | each outcome has its own HTTP code: 200 for a badge, 201 for a stored report, 400 for a conversion error, 401 for a malformed header, 403 for an unknown token |
| `Badge.BadgeResponse.Status` | dronecov.py:80-107 | the badge endpoint answers 200 exactly when it renders a badge and 400 exactly when a threshold does not convert |
| `Tables.FindToken` | dronecov.py:123 | finds a stored token iff some stored token has both that username and that token value, and what it finds has both |
| `Badge.CoveragePrecision` | dronecov.py:53-59 | the numeral is the literal "100" iff cov >= 99.95 (above 100 as well), the value with one fractional digit iff 9.995 <= cov < 99.95, with two otherwise |
| `Badge.FormatCoverage` | dronecov.py:61-62 | the label is the precision-tier numeral followed by the thin-space percent suffix, so it never equals the no-data label |
| `Badge.PrecisionIsWidestFit` | dronecov.py:53-59 | the chosen number of fractional digits is `WidestFit`: for a coverage in [0, 999.5), the largest (up to two) whose rounded numeral has at most three significant digits, and 0 when no width fits |
| `Badge.HundredIsRounded` | dronecov.py:54-55 | for 99.95 <= cov < 100.5 the literal "100" is cov rounded to a whole percent |
| `Badge.PrecisionMonotone` | dronecov.py:53-59 | a higher coverage never gets more fractional digits |
| `Badge.RenderColor` | dronecov.py:64-69 | the tier is a key of the colour map; red iff cov <= error, orange iff error < cov <= warn, green iff cov exceeds both |
| `Badge.ColorMonotone` | dronecov.py:64-69 | raising the coverage never lowers the tier |
| `Badge.ColorAntitone` | dronecov.py:64-69 | raising either threshold never raises the tier |
| `Badge.RedHasPriority` | dronecov.py:65-68 | when error >= warn the tier is never orange: the red test comes first |
| `Badge.Threshold` | dronecov.py:82-83 | an absent threshold argument gives the default; a present one gives its float conversion, None when that raises |
| `Badge.GetCoverageSvg` | dronecov.py:80-107 | 400 iff a threshold argument does not convert, whatever the store; otherwise geometry 60/54/4, a palette colour, label N/A iff no report, N/A is red whatever the thresholds, and with a report the label is its formatted coverage and the colour that of its tier under the thresholds (defaults 5 and 80) |
| `Auth.AuthResult.Status` | dronecov.py:71-77 | only success maps to a non-error status; malformed header is 401, unknown token 403 |
| `Auth.HeaderValue` | dronecov.py:128 | the header's value when present, the empty string when missing |
| `Auth.IsWellFormed` | dronecov.py:129-130 | the header passes the format check iff it is exactly 39 characters and starts with "Bearer " |
| `Auth.TokenPart` | dronecov.py:129 | the part after the 7-character prefix, empty for a header no longer than the prefix |
| `Auth.TokenCanAccess` | dronecov.py:121-125 | authorized iff a stored token has that username and that token value; never the 401 outcome |
| `Auth.CheckAuthorization` | dronecov.py:127-132 | 401 iff the header (empty when missing) is not exactly 39 characters starting with "Bearer "; authorized iff it is and a stored token grants its last 32 characters to the user |
| `Auth.MalformedNeedsNoLookup` | dronecov.py:127-131 | a malformed header gives 401 whatever the token table holds |
| `Auth.MissingHeaderIsUnauthorized` | dronecov.py:128-131 | a request without an Authorization header gets 401 |
| `Auth.RepoNeverMatters` | dronecov.py:121-132 | the repository argument never changes the outcome |
| `Auth.StoredTokenAuthorizes` | dronecov.py:121-132 | "Bearer " followed by a stored 32-character token authorizes its user for every repository |
| `Ingest.Get` | dronecov.py:112-113 | a present field reads as its stored value, an absent one as null |
| `Ingest.TruncateTowardZero` | dronecov.py:113 | int() of a float keeps the integer part, rounding toward zero for both signs |
| `Ingest.ToFloat` | dronecov.py:112 | float() of null, an array or an object fails; booleans give 0 and 1, numbers themselves, strings their conversion |
| `Ingest.ToInt` | dronecov.py:113 | int() of null, an array or an object fails; booleans give 0 and 1, numbers are truncated toward zero, strings their conversion |
| `Ingest.IntIsTruncatedFloat` | dronecov.py:112-113 | on a non-string value, int() fails exactly when float() fails and otherwise gives float()'s result truncated toward zero |
| `Ingest.ValidateCoverageReport` | dronecov.py:111-119 | fails when either field is absent; succeeds iff both fields convert, giving a report of the request's user/repo/branch with the converted coverage and build number |
| `Ingest.Decide` | dronecov.py:134-146 | 401 iff the header is malformed, 403 iff the token is not granted, 400 iff authorized but the payload does not convert, otherwise the validated report is accepted |
| `Ingest.AuthorizationFirst` | dronecov.py:136-141 | an unauthorized request gets 401 or 403, never 400, and the same outcome whatever its payload |
| `Ingest.AnyRepositoryOfTheUser` | dronecov.py:121-136 | whether a request is accepted does not depend on its repository |
| `Tokens.AlphabetLayout` | dronecov.py:150 | position k of the alphabet holds the k-th character of a-z, A-Z, 0-9 |
| `Tokens.AlphabetComplete` | dronecov.py:150 | every ASCII letter and digit is in the alphabet, at its position |
| `Tokens.AlphabetMembers` | dronecov.py:150 | a character is in the alphabet iff it is an ASCII letter or digit |
| `Tokens.ChosenAreAlphanumeric` | dronecov.py:151 | every alphabet position the generator can pick holds a letter or digit |
| `Tokens.GenerateToken` | dronecov.py:148-151 | the token has 32 characters, each an ASCII letter or digit |
| `Tokens.GeneratedAt` | dronecov.py:148-151 | character i of the token is the alphabet character at the i-th random position |
| `Tokens.GenerateTokenRoundTrip` | dronecov.py:148-151 | distinct random positions give distinct tokens, and every 32-character alphanumeric string is generated by its own positions |
| `Tokens.GeneratedTokenIsWellFormed` | dronecov.py:148-151 | "Bearer " followed by a generated token passes the header format check |
| `Tokens.Split` | dronecov.py:162 | splitting at '/' gives one more part than there are slashes, none containing a slash |
| `Tokens.SplitJoin` | dronecov.py:162 | joining the parts with '/' gives back the argument |
| `Tokens.SplitAtFirst` | dronecov.py:162 | the first part is everything before the first slash |
| `Tokens.WarnsRepoIgnored` | dronecov.py:163-164 | the warning is printed iff the repository part is neither "" nor "*" |
| `Tokens.ParseUserRepo` | dronecov.py:159-162 | no slash gives (arg, "*"); one slash gives the two sides; more than one slash fails |
| `Storage.Stamp` | dronecov.py:115-119 | the stored row belongs to the report's user/repo/branch and keeps its coverage and build number, with the store's id and the clock value at insert |
| `Storage.Store.constructor` | dronecov.py:155-156 | a freshly created database has both tables empty |
| `Storage.Store.UpdateCoverage` | dronecov.py:134-146 | the status is that of `Decide`; a refused request leaves both tables unchanged; an accepted one appends exactly one row and leaves the token table unchanged |
| `Storage.Store.IssueToken` | dronecov.py:158-169 | a bad argument or an already stored token value changes nothing; otherwise exactly one token for the user part is appended; the warning is given iff the repo part is neither empty nor "*" |
| `Storage.StoredRowAuthorizes` | dronecov.py:121-132 | in a valid store (token values unique as the column at dronecov.py:37 declares, each a generated token) the lookup of a stored token for its user finds exactly that row, and the row presented as a bearer token authorizes its user for any repository |
| `Storage.IngestThenRender` | dronecov.py:87-99 | after appending a report newer than all of its triple, the default badge shows its formatted coverage and the colour of its tier under 5 and 80 |
| `Storage.NoDataIsRed` | dronecov.py:97-99 | with no report for the triple the label is "N/A" and the colour #e05d44 |
| `Storage.IssuedTokenAuthorizes` | dronecov.py:121-132 | a newly appended generated token authorizes its user for any repository |
| `Storage.UnknownTokenIsForbidden` | dronecov.py:121-125 | a well-formed header whose token no stored token grants to the user gets 403 |
| `Storage.ExampleReport` | dronecov.py:111-119 | a payload of 87.3 and 42 validates to that report whatever the string conversions |
| `Storage.ExampleBadge` | dronecov.py:92-99 | a store holding only that report renders "87.3" with the suffix in green |
| `Storage.Session` | dronecov.py:134-146 | on a fresh store, a token issued for a user lets it post 87.3% to any of its repositories (201), and the badge then shows 87.3 in green |

## Left out

- HTTP plumbing: routing, response bodies and headers, and the text of error
  messages; only the outcome kind (200, 201, 400, 401, 403) is modelled.
- The ORM: sessions, commits, column types and lengths (the `String(8)`
  build column stores the integer as text on SQLite), and database failures
  other than a duplicate token value and the NaN case below; the tables are
  two sequences in the `Store` object, appended in place.
- `init` on a database that already exists: `create_all()` keeps its rows;
  the model's constructor is only the fresh, empty database.
- The SVG template; only the values passed to it (label, colour, geometry)
  are modelled.
- Floating point: coverage values and thresholds are exact reals, and 99.95
  and 9.995 are exact decimals rather than the nearest binary doubles. The
  digits of "%.1f" and "%.2f" and the grammar of `float()`/`int()` on strings
  are not modelled; the rounding reference rounds half up.
- JSON bodies that are not objects.
- Non-finite numbers: coverage values and thresholds are reals, so NaN and
  the infinities are excluded. The program accepts them: JSON `NaN`,
  `Infinity` or `1e400` as `coverage_total` converts with `float()`, and a
  `nan` threshold argument converts as well. The infinities are stored with
  201 and render +inf as "100" in green and -inf as "-inf" in red. A NaN
  coverage is stored with 201 on an engine that keeps NaN (PostgreSQL), where
  it renders as "nan" in green since every comparison with NaN is false; on
  the default SQLite database NaN becomes NULL, the NOT NULL `coverage`
  column refuses it at commit and the request fails with 500. A NaN error
  threshold never gives red. A NaN `build_number` makes `int()` raise ValueError, which
  gives 400; `int()` of an infinity and `float()` of an integer too large for
  a double raise OverflowError, which the endpoint does not catch.
- The debug-only `cov` query argument that overrides the stored coverage.
- The `random` module: the generator is given its 32 positions.
- The command-line printing ("DB created."), the `token`/`token-batch`
  distinction (it only changes what is printed) and the shape of `argv`.
- Concurrency between requests; the model is sequential.
- reporter/index.js (LCOV parsing, the upload request), reporter/webpack.config.js
  and tests/utils.py are not part of this model.
