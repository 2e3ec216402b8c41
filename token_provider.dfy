/**
 * TokenProvider: turns a verified JWT into a Spring Security authentication.
 * The scope claim `scp` arrives as the text of a Java list, such as
 * "[openid, profile, email]"; its brackets are cut off, its spaces deleted and
 * the rest split on commas into authority names. JWT decoding and
 * verification is a parameter `decode`: `Success(None)` stands for the null
 * that `decodeJwt` returns when the token does not verify, and `Failure(e)`
 * for an exception escaping `decodeJwt` (for example the NullPointerException
 * raised when the token does not parse at all).
 */
module TokenProvider {
  import opened Wrappers
  import opened JavaLang
  import opened Claims
  import opened Security

  /** The claim holding the granted scopes. */
  const AuthoritiesKey: string := "scp"

  /** The claim holding the subject, which becomes the username. */
  const SubjectKey: string := "sub"

  /** The authority names of a scope text: drop the first and last character
      (`substring(1, length() - 1)`, which throws when the text has fewer than
      two characters), delete every space, split on `,`. */
  function ParseScopes(scopes: string): (r: Result<seq<string>, Exception>)
    ensures r.Success? <==> |scopes| >= 2
    ensures r.Failure? ==> r.error == StringIndexOutOfBoundsException
    ensures r.Success? ==> forall i :: 0 <= i < |r.value| ==> ' ' !in r.value[i] && ',' !in r.value[i]
  {
    match Substring(scopes, 1, |scopes| - 1)
    case None => Failure(StringIndexOutOfBoundsException)
    case Some(inner) => Success(Split(RemoveAll(inner, ' '), ','))
  }

  /** What `decodeJwt` does with a token: it throws, returns null (`None`) or
      returns the claims map. */
  type Decoder = string -> Result<Option<ClaimsMap>, Exception>

  /** `getAuthentication(token)`. The steps run in the order of
      `getAuthentication`'s statements, so a missing or too short scope claim
      is reported before a missing subject. */
  function GetAuthentication(decode: Decoder, token: string): (r: Result<Authentication, Exception>)
    ensures decode(token).Failure? ==> r == Failure(decode(token).error)
    ensures decode(token) == Success(None) ==> r == Failure(NullPointerException)
    ensures decode(token).Success? && decode(token).value.Some? ==>
      var claims := decode(token).value.value;
      var scopes := ClaimString(claims, AuthoritiesKey);
      var subject := ClaimString(claims, SubjectKey);
      && (r.Success? <==> scopes.Some? && |scopes.value| >= 2 && subject.Some?)
      && (r.Failure? ==> (r.error == StringIndexOutOfBoundsException <==> scopes.Some? && |scopes.value| < 2))
      && (r.Failure? ==> r.error != OtherRuntimeException)
      && (r.Success? ==>
            && r.value.credentials == token
            && r.value.principal.username == subject.value
            && r.value.principal.password == ""
            && r.value.principal.authorities == r.value.authorities
            && ParseScopes(scopes.value) == Success(AuthorityNames(r.value.authorities)))
  {
    match decode(token)
    case Failure(e) => Failure(e)
    case Success(None) => Failure(NullPointerException)
    case Success(Some(claims)) =>
      match ClaimString(claims, AuthoritiesKey)
      case None => Failure(NullPointerException)
      case Some(scopes) =>
        match ParseScopes(scopes)
        case Failure(e) => Failure(e)
        case Success(names) =>
          var authorities := ToAuthorities(names);
          NamesOfAuthorities(names);
          match ClaimString(claims, SubjectKey)
          case None => Failure(NullPointerException)
          case Some(subject) =>
            var principal := User(subject, "", authorities);
            Success(UsernamePasswordAuthenticationToken(principal, token, authorities))
  }

  /** `validateToken(token)`: whether decoding produced a claims map. A token
      it rejects never authenticates, one that authenticates always passes,
      and an exception from decoding escapes both operations alike. */
  function ValidateToken(decode: Decoder, token: string): (r: Result<bool, Exception>)
    ensures r == Success(false) ==> GetAuthentication(decode, token) == Failure(NullPointerException)
    ensures GetAuthentication(decode, token).Success? ==> r == Success(true)
    ensures r.Failure? ==> GetAuthentication(decode, token) == Failure(r.error)
    ensures decode(token).Failure? ==> r == Failure(decode(token).error)
    ensures decode(token).Success? ==> r == Success(decode(token).value.Some?)
  {
    match decode(token)
    case Failure(e) => Failure(e)
    case Success(claims) => Success(claims.Some?)
  }

  /** Only the characters strictly inside the scope text matter: whatever the
      first and last characters are, they are dropped before spaces are
      deleted and the text is split. */
  lemma ParseScopesDropsEnds(first: char, inner: string, last: char)
    ensures ParseScopes([first] + inner + [last]) == Success(Split(RemoveAll(inner, ' '), ','))
  {
  }

  /** The authority names are the comma-separated pieces of the space-free
      inner text, in order: joining them with commas gives that text back
      whenever it does not end with a comma. */
  lemma ParseScopesKeepsOrder(scopes: string)
    requires |scopes| >= 2
    requires var t := RemoveAll(scopes[1..|scopes| - 1], ' '); ',' !in t || t[|t| - 1] != ','
    ensures Join(ParseScopes(scopes).value, ",") == RemoveAll(scopes[1..|scopes| - 1], ' ')
  {
    JoinSplit(RemoveAll(scopes[1..|scopes| - 1], ' '), ',');
  }

  /** Deleting the spaces of a ", "-join of space-free names gives their ","-join. */
  lemma {:induction false} RemoveSpacesOfJoin(xs: seq<string>)
    requires forall i :: 0 <= i < |xs| ==> ' ' !in xs[i]
    ensures RemoveAll(Join(xs, ", "), ' ') == Join(xs, ",")
  {
    if |xs| == 1 {
      RemoveAllAbsent(xs[0], ' ');
    } else if |xs| > 1 {
      RemoveSpacesOfJoin(xs[1..]);
      RemoveAllAppend(xs[0], ", " + Join(xs[1..], ", "), ' ');
      RemoveAllAppend(", ", Join(xs[1..], ", "), ' ');
      RemoveAllAbsent(xs[0], ' ');
      assert RemoveAll(", ", ' ') == ",";
      assert xs[0] + ", " + Join(xs[1..], ", ") == xs[0] + (", " + Join(xs[1..], ", "));
    }
  }

  /** Round trip: the rendering of a non-empty list of non-empty scope names
      free of commas and spaces parses back to exactly that list. */
  lemma ParseScopesRoundTrip(xs: seq<string>)
    requires |xs| >= 1
    requires forall i :: 0 <= i < |xs| ==> xs[i] != "" && ' ' !in xs[i] && ',' !in xs[i]
    ensures ParseScopes(ListToString(xs)) == Success(xs)
  {
    var s := ListToString(xs);
    assert s[1..|s| - 1] == Join(xs, ", ");
    RemoveSpacesOfJoin(xs);
    SplitJoin(xs, ',');
  }

  /** Parsing yields the single empty authority name `[""]` exactly when the
      scope text has at least two characters and only spaces between its
      first and last, as the rendering "[]" of an empty list has. */
  lemma ParseScopesSingleEmptyName(scopes: string)
    ensures ParseScopes(scopes) == Success([""]) <==>
              |scopes| >= 2 && forall k :: 1 <= k < |scopes| - 1 ==> scopes[k] == ' '
  {
    if |scopes| >= 2 {
      var inner := scopes[1..|scopes| - 1];
      var t := RemoveAll(inner, ' ');
      if forall k :: 1 <= k < |scopes| - 1 ==> scopes[k] == ' ' {
        assert forall k :: 0 <= k < |inner| ==> inner[k] == ' ';
        assert ' ' !in multiset(t);
        assert forall d :: d != ' ' ==> d !in multiset(t);
        assert t == "";
      }
      if ParseScopes(scopes) == Success([""]) {
        assert t == "";
        forall k | 1 <= k < |scopes| - 1
          ensures scopes[k] == ' '
        {
          assert inner[k - 1] == scopes[k];
          assert multiset(inner)[inner[k - 1]] > 0;
        }
      }
    }
  }

  /** End to end: a token whose claims carry a well-formed scope list and a
      textual subject authenticates that subject, with an empty password, the
      token as credentials and one authority per scope, in order, shared by the
      principal and the authentication. */
  lemma AuthenticationFromScopeList(decode: Decoder, token: string, claims: ClaimsMap, scopes: seq<string>, subject: string)
    requires decode(token) == Success(Some(claims))
    requires AuthoritiesKey in claims && claims[AuthoritiesKey] == TextList(scopes)
    requires SubjectKey in claims && claims[SubjectKey] == Text(subject)
    requires |scopes| >= 1
    requires forall i :: 0 <= i < |scopes| ==> scopes[i] != "" && ' ' !in scopes[i] && ',' !in scopes[i]
    ensures GetAuthentication(decode, token) ==
      Success(UsernamePasswordAuthenticationToken(
                User(subject, "", ToAuthorities(scopes)), token, ToAuthorities(scopes)))
  {
    ParseScopesRoundTrip(scopes);
  }
}
