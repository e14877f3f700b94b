/**
 * The trusted-proxy ("doAs") validators of AmbariProxiedUserDetailsService:
 * may the proxy user act for an end user, given the allowed-hosts,
 * allowed-users and allowed-groups values configured for the proxy?
 * A value of None is a property that is not set (Java null). Every input
 * yields a decision, and each validator denies unless some token matches.
 */
module ProxiedUserDetails {
  import opened Wrappers
  import opened Text
  import opened AllowList
  import Ipv4

  /** getIpAddress: hostname to textual address; None when it does not resolve. */
  type Resolver = string -> Option<string>

  /** A group record; its name may be null. */
  datatype GroupEntity = GroupEntity(groupName: Option<string>)

  /** One membership of a user; the group it points to may be null. */
  datatype MemberEntity = MemberEntity(group: Option<GroupEntity>)

  /** How a host token is read, in the order the kinds are tried. */
  datatype HostToken = AnyHost | AddressRange | AddressLiteral | HostName

  function ClassifyHost(token: string): HostToken {
    if token == "*" then AnyHost
    else if '/' in token then AddressRange
    else if Ipv4.ParseAddress(token).Some? then AddressLiteral
    else HostName
  }

  /** Does one allowed-hosts token admit the remote address? A CIDR token is a
      subnet test, a literal address must equal the remote address as text, and
      a hostname admits when it resolves to exactly the remote address. */
  function HostTokenAdmits(token: string, remoteAddress: string, getIpAddress: Resolver): (r: bool)
    ensures token == "*" ==> r
    ensures Ipv4.ParseCidr(token).Some? ==> (r <==> Ipv4.IsInIpAddressRange(token, remoteAddress))
    ensures token != "*" && '/' in token && Ipv4.ParseCidr(token).None? ==> !r
    ensures Ipv4.ParseAddress(token).Some? ==> (r <==> token == remoteAddress)
    ensures token != "*" && '/' !in token && Ipv4.ParseAddress(token).None? ==>
      (r <==> getIpAddress(token) == Some(remoteAddress))
  {
    match ClassifyHost(token)
    case AnyHost => true
    case AddressRange => Ipv4.IsInIpAddressRange(token, remoteAddress)
    case AddressLiteral => token == remoteAddress
    case HostName => getIpAddress(token) == Some(remoteAddress)
  }

  function AnyHostAdmits(hosts: seq<string>, remoteAddress: string, getIpAddress: Resolver): (r: bool)
    ensures r <==> exists i :: 0 <= i < |hosts| && HostTokenAdmits(hosts[i], remoteAddress, getIpAddress)
  {
    if hosts == [] then false
    else HostTokenAdmits(hosts[0], remoteAddress, getIpAddress) || AnyHostAdmits(hosts[1..], remoteAddress, getIpAddress)
  }

  /** A user name matches a token when they agree up to case. */
  predicate UserTokenAdmits(token: string, userName: string) {
    token == "*" || EqualsIgnoreCase(token, userName)
  }

  /** A membership matches a token when its group's name agrees with the token up to case. */
  predicate MemberTokenAdmits(token: string, m: MemberEntity) {
    MemberGroupName(m).Some? && EqualsIgnoreCase(token, MemberGroupName(m).value)
  }

  /** validateHost: may a request from `remoteAddress` be proxied? Only when
      the property is set and some token of it admits the remote address. */
  function ValidateHost(allowedHosts: Option<string>, remoteAddress: string, getIpAddress: Resolver): (r: bool)
    ensures r <==>
      && allowedHosts.Some?
      && exists t :: t in Tokens(allowedHosts.value) && HostTokenAdmits(t, remoteAddress, getIpAddress)
  {
    match allowedHosts
    case None => false
    case Some(raw) =>
      var hostSet := Tokens(raw);
      assert HostTokenAdmits("*", remoteAddress, getIpAddress);
      "*" in hostSet || AnyHostAdmits(hostSet, remoteAddress, getIpAddress)
  }

  /** validateUser: may the proxy act for `userName`? Only when the property is
      set and some token of it is `*` or the user name, compared without regard to case. */
  function ValidateUser(allowedUsers: Option<string>, userName: string): (r: bool)
    ensures r <==>
      && allowedUsers.Some?
      && exists t :: t in Tokens(allowedUsers.value) && UserTokenAdmits(t, userName)
  {
    match allowedUsers
    case None => false
    case Some(raw) =>
      var userSet := FoldedTokens(raw);
      FoldedStar(raw);
      FoldedMembers(raw, ToLower(userName));
      "*" in userSet || ToLower(userName) in userSet
  }

  /** The name of the group a membership points to, None when the group or its name is null. */
  function MemberGroupName(m: MemberEntity): Option<string> {
    match m.group
    case None => None
    case Some(g) => g.groupName
  }

  /** Is the group of some membership among the (lower-cased) allowed groups?
      Memberships with a null group or a null group name are skipped. */
  function AnyMemberAllowed(groupSet: seq<string>, members: seq<MemberEntity>): bool {
    if members == [] then false
    else
      (match MemberGroupName(members[0])
       case None => false
       case Some(name) => ToLower(name) in groupSet)
      || AnyMemberAllowed(groupSet, members[1..])
  }

  /** validateGroup: does the end user belong to an allowed group? Only when the
      property is set and holds `*`, or some membership's group name matches
      some token without regard to case. */
  function ValidateGroup(allowedGroups: Option<string>, members: seq<MemberEntity>): (r: bool)
    ensures r <==>
      && allowedGroups.Some?
      && ("*" in Tokens(allowedGroups.value)
          || exists m, t :: m in members && t in Tokens(allowedGroups.value) && MemberTokenAdmits(t, m))
  {
    match allowedGroups
    case None => false
    case Some(raw) =>
      var groupSet := FoldedTokens(raw);
      FoldedStar(raw);
      AnyMemberAllowedMeaning(raw, members);
      "*" in groupSet || AnyMemberAllowed(groupSet, members)
  }

  // ---------------------------------------------------------------------------
  // The membership search.

  /** One membership is allowed exactly when some token matches its group name. */
  lemma MemberAllowedMeaning(raw: string, m: MemberEntity)
    ensures (match MemberGroupName(m) case None => false case Some(name) => ToLower(name) in FoldedTokens(raw))
        <==> exists t :: t in Tokens(raw) && MemberTokenAdmits(t, m)
  {
    match MemberGroupName(m)
    case None =>
    case Some(name) =>
      FoldedMembers(raw, ToLower(name));
  }

  lemma {:induction false} AnyMemberAllowedMeaning(raw: string, members: seq<MemberEntity>)
    ensures AnyMemberAllowed(FoldedTokens(raw), members)
        <==> exists m, t :: m in members && t in Tokens(raw) && MemberTokenAdmits(t, m)
  {
    if members != [] {
      var m0, rest := members[0], members[1..];
      AnyMemberAllowedMeaning(raw, rest);
      MemberAllowedMeaning(raw, m0);
      assert forall m :: m in members <==> m == m0 || m in rest;
      assert AnyMemberAllowed(FoldedTokens(raw), members)
          == ((exists t :: t in Tokens(raw) && MemberTokenAdmits(t, m0))
              || AnyMemberAllowed(FoldedTokens(raw), rest));
    }
  }

  // ---------------------------------------------------------------------------
  // Unset or blank values deny.

  lemma UnsetOrBlankDenies(raw: Option<string>, remoteAddress: string, getIpAddress: Resolver,
                           userName: string, members: seq<MemberEntity>)
    requires raw.None? || Trim(raw.value) == ""
    ensures !ValidateHost(raw, remoteAddress, getIpAddress)
    ensures !ValidateUser(raw, userName)
    ensures !ValidateGroup(raw, members)
  {
    if raw.Some? {
      TokensOfBlank(raw.value);
      assert FoldedTokens(raw.value) == [];
    }
  }

  // ---------------------------------------------------------------------------
  // The wildcard admits everything, wherever it stands in the list.

  lemma WildcardAdmitsAll(raw: string, remoteAddress: string, getIpAddress: Resolver,
                          userName: string, members: seq<MemberEntity>)
    requires "*" in Tokens(raw)
    ensures ValidateHost(Some(raw), remoteAddress, getIpAddress)
    ensures ValidateUser(Some(raw), userName)
    ensures ValidateGroup(Some(raw), members)
  {
    FoldedStar(raw);
  }

  /** A list of several values admits exactly what one of its parts admits. */
  lemma ListIsUnion(a: string, b: string, remoteAddress: string, getIpAddress: Resolver,
                    userName: string, members: seq<MemberEntity>)
    ensures ValidateHost(Some(a + "," + b), remoteAddress, getIpAddress)
        == (ValidateHost(Some(a), remoteAddress, getIpAddress) || ValidateHost(Some(b), remoteAddress, getIpAddress))
    ensures ValidateUser(Some(a + "," + b), userName)
        == (ValidateUser(Some(a), userName) || ValidateUser(Some(b), userName))
    ensures ValidateGroup(Some(a + "," + b), members)
        == (ValidateGroup(Some(a), members) || ValidateGroup(Some(b), members))
  {
    HostListIsUnion(a, b, remoteAddress, getIpAddress);
    UserListIsUnion(a, b, userName);
    GroupListIsUnion(a, b, members);
  }

  /** ListIsUnion, one validator at a time. */
  lemma HostListIsUnion(a: string, b: string, remoteAddress: string, getIpAddress: Resolver)
    ensures ValidateHost(Some(a + "," + b), remoteAddress, getIpAddress)
        == (ValidateHost(Some(a), remoteAddress, getIpAddress) || ValidateHost(Some(b), remoteAddress, getIpAddress))
  {
    TokensAppend(a, b);
  }

  lemma UserListIsUnion(a: string, b: string, userName: string)
    ensures ValidateUser(Some(a + "," + b), userName) == (ValidateUser(Some(a), userName) || ValidateUser(Some(b), userName))
  {
    TokensAppend(a, b);
  }

  lemma GroupListIsUnion(a: string, b: string, members: seq<MemberEntity>)
    ensures ValidateGroup(Some(a + "," + b), members) == (ValidateGroup(Some(a), members) || ValidateGroup(Some(b), members))
  {
    TokensAppend(a, b);
  }

  // ---------------------------------------------------------------------------
  // Host tokens one kind at a time.

  /** A single host token decides the outcome on its own. */
  lemma SingleHostToken(token: string, remoteAddress: string, getIpAddress: Resolver)
    requires token != "" && IsTrimmed(token) && ',' !in token
    ensures ValidateHost(Some(token), remoteAddress, getIpAddress) == HostTokenAdmits(token, remoteAddress, getIpAddress)
  {
    TokensOfWord(token);
  }

  /** A literal address admits exactly that address. */
  lemma LiteralAddressIsExact(token: string, remoteAddress: string, getIpAddress: Resolver)
    requires Ipv4.ParseAddress(token).Some?
    ensures ValidateHost(Some(token), remoteAddress, getIpAddress) <==> remoteAddress == token
  {
    Ipv4.NoSeparatorsInAddress(token);
    SingleHostToken(token, remoteAddress, getIpAddress);
  }

  /** A CIDR token admits exactly the addresses inside its block. */
  lemma CidrTokenIsRange(token: string, remoteAddress: string, getIpAddress: Resolver)
    requires Ipv4.ParseCidr(token).Some?
    ensures ValidateHost(Some(token), remoteAddress, getIpAddress) == Ipv4.IsInIpAddressRange(token, remoteAddress)
  {
    Ipv4.NoSeparatorsInCidr(token);
    SingleHostToken(token, remoteAddress, getIpAddress);
  }

  /** A hostname token admits exactly the address it resolves to; an
      unresolved hostname admits nothing. */
  lemma HostNameTokenResolves(token: string, remoteAddress: string, getIpAddress: Resolver)
    requires token != "" && IsTrimmed(token) && ',' !in token
    requires ClassifyHost(token) == HostName
    ensures ValidateHost(Some(token), remoteAddress, getIpAddress) <==> getIpAddress(token) == Some(remoteAddress)
    ensures getIpAddress(token).None? ==> !ValidateHost(Some(token), remoteAddress, getIpAddress)
  {
    SingleHostToken(token, remoteAddress, getIpAddress);
  }

  /** Fail-closed resolution: a resolver that answers less (leaves more names
      unresolved, and otherwise agrees) never admits more. */
  lemma LessResolutionAdmitsLess(raw: string, remoteAddress: string, weaker: Resolver, stronger: Resolver)
    requires forall h :: weaker(h).Some? ==> weaker(h) == stronger(h)
    ensures ValidateHost(Some(raw), remoteAddress, weaker) ==> ValidateHost(Some(raw), remoteAddress, stronger)
  {
    if ValidateHost(Some(raw), remoteAddress, weaker) {
      var t :| t in Tokens(raw) && HostTokenAdmits(t, remoteAddress, weaker);
      assert HostTokenAdmits(t, remoteAddress, stronger);
    }
  }

  // ---------------------------------------------------------------------------
  // Users and groups.

  /** User matching ignores the case of the user name. */
  lemma ValidateUserIgnoresCase(raw: Option<string>, userName: string)
    ensures ValidateUser(raw, userName) == ValidateUser(raw, ToLower(userName))
    ensures ValidateUser(raw, userName) == ValidateUser(raw, ToUpper(userName))
  {
    ToLowerIdempotent(userName);
    ToLowerOfToUpper(userName);
  }

  /** A single user name admits that user in any spelling of its case, and no one else. */
  lemma SingleUserToken(token: string, userName: string)
    requires token != "" && token != "*" && IsTrimmed(token) && ',' !in token
    ensures ValidateUser(Some(token), userName) <==> EqualsIgnoreCase(token, userName)
  {
    TokensOfWord(token);
    if EqualsIgnoreCase(token, userName) {
      assert token in Tokens(token) && UserTokenAdmits(token, userName);
    }
  }

  /** A single group name admits exactly the users with a membership in a group
      of that name, in any spelling of its case. */
  lemma SingleGroupToken(token: string, members: seq<MemberEntity>)
    requires token != "" && token != "*" && IsTrimmed(token) && ',' !in token
    ensures ValidateGroup(Some(token), members) <==> exists m :: m in members && MemberTokenAdmits(token, m)
  {
    TokensOfWord(token);
  }

  /** Memberships without a group or without a group name never make a difference. */
  lemma NullMembershipsAreSkipped(raw: Option<string>, members: seq<MemberEntity>, m: MemberEntity)
    requires MemberGroupName(m).None?
    ensures ValidateGroup(raw, members + [m]) == ValidateGroup(raw, members)
    ensures ValidateGroup(raw, [m] + members) == ValidateGroup(raw, members)
  {
    if raw.Some? {
      assert forall x :: x in members + [m] <==> x in members || x == m;
      assert forall x :: x in [m] + members <==> x in members || x == m;
    }
  }

  /** Only which memberships a user has matters, not their order or repetition. */
  lemma ValidateGroupUsesMembershipSet(raw: Option<string>, members: seq<MemberEntity>, others: seq<MemberEntity>)
    requires forall m :: m in members <==> m in others
    ensures ValidateGroup(raw, members) == ValidateGroup(raw, others)
  {
    if raw.Some? {
    }
  }

  /** Gaining a membership never revokes permission. */
  lemma MoreMembershipsAdmitMore(raw: Option<string>, members: seq<MemberEntity>, m: MemberEntity)
    ensures ValidateGroup(raw, members) ==> ValidateGroup(raw, members + [m])
  {
    if raw.Some? {
      assert forall x :: x in members ==> x in members + [m];
    }
  }
}
