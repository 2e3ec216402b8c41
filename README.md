# TokenProvider scope parsing, modelled in Dafny

This project models the server-side `TokenProvider` of the Okta / Spring Boot /
Angular example. Its `getAuthentication` turns a verified JWT into a Spring
Security authentication:

1. The JWT is decoded into a claims map.
2. The `scp` (scope) claim is rendered with `toString()`. For a list claim
   this gives text such as `[openid, profile, email]`.
3. The first and last characters are cut off with `substring(1, length() - 1)`.
4. Every space is deleted with `replace(" ", "")`.
5. The text is split on `,` into authority names, keeping their order.
6. A principal is built from the `sub` claim, an empty password and those
   authorities. The authentication holds this principal, the raw token as its
   credentials and the same authorities.

`validateToken` is true when decoding gives a claims map.

Modules:

- `Wrappers` (`wrappers.dfy`): `Option` stands for Java's `null` and `Result`
  for a call that throws.
- `JavaLang` (`java_lang.dfy`): the `java.lang.String` operations used by the
  code, with their Java semantics. `substring` has its bounds check. `replace`
  deletes a one-character target. `split` uses the default limit 0: with no
  separator it returns `[s]`, so `""` gives `[""]`. Otherwise trailing empty
  strings are removed, so a string made only of commas gives `[]`. The module
  proves that `split` undoes `join` for a list of separator-free strings that
  has one element or a non-empty last element. It also proves that `join`
  undoes `split` for a text that does not end with the separator. (`"a,"`
  splits to `["a"]`, which joins to `"a"`.)
- `Claims` (`claims.dfy`): claim values, the claims map, `List.toString()`, and
  `claims.get(key).toString()` with its NullPointerException.
- `Security` (`security.dfy`): plain records for `SimpleGrantedAuthority`,
  `User` and `UsernamePasswordAuthenticationToken`.
- `TokenProvider` (`token_provider.dfy`): `ParseScopes`, `GetAuthentication`,
  `ValidateToken` and the lemmas about them.

JWT decoding (`decodeJwt`) is a parameter `decode` of type
`string -> Result<Option<ClaimsMap>, Exception>`:

- `Success(None)` is the `null` that `decodeJwt` returns when a parsed token
  fails verification;
- `Failure(e)` is an exception escaping `decodeJwt`, for example the
  NullPointerException raised when the token does not parse at all.

Java exceptions are modelled as a `Result` whose failure is
`NullPointerException`, `StringIndexOutOfBoundsException` or another runtime
exception. They arise in the same order as in the source:

- decoding throws, and that exception escapes;
- decoding returns `null`;
- `scp` is absent or JSON null;
- the scope text has fewer than two characters;
- `sub` is absent or JSON null.

## Model

| member | source | states |
|---|---|---|
| JavaLang.Substring | server/src/main/java/com/example/jwt/TokenProvider.java:43 | `substring(b, e)` succeeds exactly when `0 <= b <= e <= length`, and then returns the `e - b` characters starting at `b`; otherwise it throws |
| JavaLang.IndexOf | server/src/main/java/com/example/jwt/TokenProvider.java:46 | -1 exactly when the character is absent; otherwise the first position holding it |
| JavaLang.RemoveAll | server/src/main/java/com/example/jwt/TokenProvider.java:43 | the result has no occurrence of the deleted character, is no longer than the input, and keeps the count of every other character |
| JavaLang.RemoveAllAppend | server/src/main/java/com/example/jwt/TokenProvider.java:43 | deleting a character distributes over concatenation |
| JavaLang.RemoveAllAbsent | server/src/main/java/com/example/jwt/TokenProvider.java:43 | a string without the character is unchanged, so deleting spaces twice changes nothing more |
| JavaLang.Segments | server/src/main/java/com/example/jwt/TokenProvider.java:46 | at least one piece; no piece contains the separator; every character of a piece occurs in the input |
| JavaLang.DropTrailingEmpty | server/src/main/java/com/example/jwt/TokenProvider.java:46 | the result is a prefix of the input; everything removed is empty; the last element kept is non-empty |
| JavaLang.Split | server/src/main/java/com/example/jwt/TokenProvider.java:46 | `[s]` when the separator is absent; otherwise the segments in order with only trailing empty ones dropped; no piece contains the separator or a character absent from the input |
| JavaLang.IndexOfAfterPrefix | server/src/main/java/com/example/jwt/TokenProvider.java:46 | in `a + [sep] + b` with `sep` not in `a`, the first separator is at position `|a|` |
| JavaLang.JoinSegments | server/src/main/java/com/example/jwt/TokenProvider.java:46 | joining the segments with the separator gives the input back |
| JavaLang.SegmentsJoin | server/src/main/java/com/example/jwt/TokenProvider.java:46 | segmenting a join of separator-free strings gives those strings back |
| JavaLang.SegmentsLastEmpty | server/src/main/java/com/example/jwt/TokenProvider.java:46 | the last segment is empty exactly when the input is empty or ends with the separator |
| JavaLang.SplitJoin | server/src/main/java/com/example/jwt/TokenProvider.java:46 | splitting a join of separator-free strings gives the list back when its last element is non-empty or it has one element |
| JavaLang.JoinSplit | server/src/main/java/com/example/jwt/TokenProvider.java:46 | joining the pieces of a split gives the input back when the input has no separator or does not end with one |
| JavaLang.SegmentsOfSeparators | server/src/main/java/com/example/jwt/TokenProvider.java:46 | a string made only of separators has only empty segments |
| JavaLang.JoinOfEmpties | server/src/main/java/com/example/jwt/TokenProvider.java:46 | a join of empty strings contains only separators |
| JavaLang.SplitEmpty | server/src/main/java/com/example/jwt/TokenProvider.java:46 | split returns no pieces exactly when the input is non-empty and made only of separators |
| Claims.ListToString | server/src/main/java/com/example/jwt/TokenProvider.java:42 | the rendering of a list has at least two characters, opens with `[` and closes with `]` |
| Claims.ToString | server/src/main/java/com/example/jwt/TokenProvider.java:42 | `toString()` throws exactly on a JSON null value |
| Claims.ClaimString | server/src/main/java/com/example/jwt/TokenProvider.java:42 | `claims.get(key).toString()` succeeds exactly when the key is present with a non-null value; it gives a text claim's text and a list claim's list rendering |
| Security.ToAuthorities | server/src/main/java/com/example/jwt/TokenProvider.java:45-48 | one authority per name, in the same order, each carrying its name |
| Security.AuthorityNames | server/src/main/java/com/example/jwt/TokenProvider.java:45-48 | the names of the authorities, in order |
| Security.NamesOfAuthorities | server/src/main/java/com/example/jwt/TokenProvider.java:45-48 | wrapping names as authorities loses nothing: reading the names back gives the original list, in order |
| TokenProvider.ParseScopes | server/src/main/java/com/example/jwt/TokenProvider.java:42-48 | parsing succeeds exactly when the scope text has at least two characters, and otherwise throws StringIndexOutOfBoundsException; no resulting name contains a space or a comma |
| TokenProvider.GetAuthentication | server/src/main/java/com/example/jwt/TokenProvider.java:39-52 | an exception from decoding escapes unchanged, and a `null` claims map throws NullPointerException. Otherwise it succeeds exactly when `scp` renders to two or more characters and `sub` is present. The out-of-bounds exception occurs exactly for a too-short scope text, even with `sub` missing. On success: the username is the `sub` text, the password is empty, the credentials are the token, the principal and the authentication share one authority list, and the authority names are the parsed scopes |
| TokenProvider.ValidateToken | server/src/main/java/com/example/jwt/TokenProvider.java:54-56 | a decoder exception escapes unchanged. Otherwise the result is true exactly when decoding returns a claims map rather than `null`. A token it rejects makes `getAuthentication` throw NullPointerException. A token that authenticates always validates. When validation throws, `getAuthentication` throws the same exception |
| TokenProvider.ParseScopesDropsEnds | server/src/main/java/com/example/jwt/TokenProvider.java:43 | the first and last characters are dropped whatever they are; only the inner text is de-spaced and split |
| TokenProvider.ParseScopesKeepsOrder | server/src/main/java/com/example/jwt/TokenProvider.java:43-48 | joining the names with `,` gives the space-free inner text back when it has no trailing comma, so names keep their order |
| TokenProvider.RemoveSpacesOfJoin | server/src/main/java/com/example/jwt/TokenProvider.java:43 | deleting spaces from a `", "`-join of space-free names gives their `","`-join |
| TokenProvider.ParseScopesRoundTrip | server/src/main/java/com/example/jwt/TokenProvider.java:42-48 | the rendering `[s1, ..., sn]` of a non-empty list of non-empty names without spaces or commas parses to exactly `[s1, ..., sn]` |
| TokenProvider.ParseScopesSingleEmptyName | server/src/main/java/com/example/jwt/TokenProvider.java:42-48 | parsing yields the single empty name `[""]` exactly when the scope text has at least two characters and only spaces between its first and last, as the rendering `[]` of an empty list has |
| TokenProvider.AuthenticationFromScopeList | server/src/main/java/com/example/jwt/TokenProvider.java:39-52 | a token with a well-formed `scp` list and a text `sub` yields exactly the authentication for that subject. The password is empty, the token is the credentials, and there is one authority per scope in order, shared by principal and authentication |

## Left out

- `decodeJwt` (TokenProvider.java:64-128) is a parameter of the model. Its JWS parsing, signature, issuer, audience and expiry checks are implemented by the jose4j library. Which tokens make it throw and which make it return `null` is therefore not modelled. Examples of throwing are line 91 on a token that does not parse, and lines 101-109 when the discovery fetch or its `jwks_uri` is missing.
- `decode` is unconstrained, but the real decoder requires a subject (TokenProvider.java:117). The modelled NullPointerException for a decoded map without `sub` therefore cannot arise through it.
- The model assumes `decode` gives the same answer every time. The real decoder fetches keys over the network and checks expiry against the clock, so `validateToken` and `getAuthentication` called one after the other could disagree.
- `getDiscoveryDocument` (TokenProvider.java:130-158) is left out because it is HTTP and stream I/O.
- Logging and stack-trace printing are left out because they have no effect on results.
- Spring Security's own checks are not modelled. `User` rejects an empty username and null values and copies its authorities into a sorted set. `SimpleGrantedAuthority` rejects empty text. The records here keep the authority list exactly as the token provider passes it. So any empty or blank authority name is not reported as an error. Examples are the one produced by `[]` or `[ ]`, an inner empty piece as in `[a, , b]`, and a name made only of other whitespace such as a tab, which `replace(" ", "")` keeps.
- Security.ToAuthorities: keeps duplicates and order as passed. It does not model the sorted set that Spring's `User` builds internally.
- Strings are sequences of characters. Java's UTF-16 code-unit indexing differs for characters outside the Basic Multilingual Plane, and that is not modelled.
- `split` is modelled only for a one-character, non-regex-metacharacter pattern with limit 0, which is the only way the code calls it.
- Claim values other than strings, string lists and JSON null are represented by their `toString()` text, not by their JSON structure.
- The Angular client is left out because it is glue over OAuth and UI libraries with no logic of its own to model. This covers `home.component.ts`, `main.component.ts`, `app.component.ts`, `app.module.ts`, `auth.guard.service.ts` and `beer.service.ts`.
