/**
 * Plain records standing for the Spring Security objects the token provider
 * builds: SimpleGrantedAuthority, User and UsernamePasswordAuthenticationToken.
 */
module Security {

  /** A granted authority, named by its text. */
  datatype GrantedAuthority = SimpleGrantedAuthority(authority: string)

  /** The authenticated principal. */
  datatype User = User(username: string, password: string, authorities: seq<GrantedAuthority>)

  /** The authentication handed to the security context. */
  datatype Authentication =
    UsernamePasswordAuthenticationToken(principal: User, credentials: string, authorities: seq<GrantedAuthority>)

  /** `names.stream().map(SimpleGrantedAuthority::new).collect(toList())`. */
  function ToAuthorities(names: seq<string>): (r: seq<GrantedAuthority>)
    ensures |r| == |names|
    ensures forall i :: 0 <= i < |r| ==> r[i].authority == names[i]
  {
    seq(|names|, i requires 0 <= i < |names| => SimpleGrantedAuthority(names[i]))
  }

  /** The names of `authorities`, in order. */
  function AuthorityNames(authorities: seq<GrantedAuthority>): (r: seq<string>)
    ensures |r| == |authorities|
    ensures forall i :: 0 <= i < |r| ==> r[i] == authorities[i].authority
  {
    seq(|authorities|, i requires 0 <= i < |authorities| => authorities[i].authority)
  }

  /** Building authorities from names loses nothing: the names come back in order. */
  lemma NamesOfAuthorities(names: seq<string>)
    ensures AuthorityNames(ToAuthorities(names)) == names
  {
  }
}
