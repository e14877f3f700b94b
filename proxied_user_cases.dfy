/**
 * The cases AmbariProxiedUserDetailsServiceTest pins down, stated as lemmas
 * about the model. The remote address of every host case is 192.168.74.101;
 * the resolver knows two hosts and nothing else.
 */
module ProxiedUserCases {
  import opened Wrappers
  import opened Text
  import opened Decimal
  import opened AllowList
  import opened Ipv4
  import opened ProxiedUserDetails

  /** The stubbed getIpAddress: two known hosts, everything else unresolved. */
  function StubResolver(hostname: string): (r: Option<string>)
    ensures r.Some? <==> hostname == "host1.example.com" || hostname == "host2.example.com"
  {
    if hostname == "host1.example.com" then Some("192.168.74.101")
    else if hostname == "host2.example.com" then Some("192.168.74.102")
    else None
  }

  const Remote := "192.168.74.101"

  // ---------------------------------------------------------------------------
  // The literals of the tests, spelled as octets.

  lemma OctetDecimals()
    ensures NatToString(192) == "192" && NatToString(168) == "168"
    ensures NatToString(74) == "74" && NatToString(1) == "1" && NatToString(2) == "2"
  {
  }

  lemma HostDecimals()
    ensures NatToString(101) == "101" && NatToString(102) == "102"
    ensures NatToString(0) == "0" && NatToString(10) == "10" && NatToString(11) == "11"
    ensures NatToString(100) == "100"
  {
  }

  lemma PrefixDecimals()
    ensures NatToString(24) == "24" && NatToString(32) == "32"
  {
  }

  lemma RemoteIsDottedQuad()
    ensures Remote == DottedQuad(192, 168, 74, 101)
  {
    OctetDecimals();
    HostDecimals();
    assert Join(["192", "168", "74", "101"], '.') == Remote;
  }

  lemma OtherAddressIsDottedQuad()
    ensures "192.168.74.102" == DottedQuad(192, 168, 74, 102)
  {
    OctetDecimals();
    HostDecimals();
    assert Join(["192", "168", "74", "102"], '.') == "192.168.74.102";
  }

  lemma SubnetIsDottedQuad()
    ensures "192.168.74.0/24" == DottedQuad(192, 168, 74, 0) + "/" + NatToString(24)
  {
    OctetDecimals();
    HostDecimals();
    PrefixDecimals();
    assert Join(["192", "168", "74", "0"], '.') == "192.168.74.0";
  }

  lemma SingleAddressBlockIsDottedQuad()
    ensures "192.168.74.1/32" == DottedQuad(192, 168, 74, 1) + "/" + NatToString(32)
  {
    OctetDecimals();
    PrefixDecimals();
    assert Join(["192", "168", "74", "1"], '.') == "192.168.74.1";
  }

  lemma HostNameShape(token: string)
    requires token == "host1.example.com" || token == "host2.example.com"
    ensures token != "" && IsTrimmed(token) && ',' !in token && '/' !in token && token != "*"
    ensures !IsDigit(token[0]) && token[0] != '.'
  {
  }

  /** A token that is a hostname is admitted exactly when the stub resolves it to the remote address. */
  lemma HostNameIsResolved(token: string)
    requires token != "" && IsTrimmed(token) && ',' !in token && '/' !in token && token != "*"
    requires !IsDigit(token[0]) && token[0] != '.'
    ensures ValidateHost(Some(token), Remote, StubResolver) <==> StubResolver(token) == Some(Remote)
  {
    NotAnAddress(token, 0);
    HostNameTokenResolves(token, Remote, StubResolver);
  }

  // ---------------------------------------------------------------------------
  // validateHost, remote address 192.168.74.101.

  lemma WildcardHostAdmits()
    ensures ValidateHost(Some("*"), Remote, StubResolver)
  {
    assert "*" != "" && IsTrimmed("*") && ',' !in "*";
    TokensOfWord("*");
  }

  lemma OwnAddressAdmits()
    ensures ValidateHost(Some("192.168.74.101"), Remote, StubResolver)
  {
    RemoteIsDottedQuad();
    ParseDottedQuad(192, 168, 74, 101);
    LiteralAddressIsExact(Remote, Remote, StubResolver);
  }

  lemma ResolvingHostNameAdmits()
    ensures ValidateHost(Some("host1.example.com"), Remote, StubResolver)
  {
    HostNameShape("host1.example.com");
    HostNameIsResolved("host1.example.com");
  }

  lemma EnclosingSubnetAdmits()
    ensures ValidateHost(Some("192.168.74.0/24"), Remote, StubResolver)
  {
    SubnetIsDottedQuad();
    RemoteIsDottedQuad();
    ParseDottedQuad(192, 168, 74, 0);
    ParseCidrOf(DottedQuad(192, 168, 74, 0), 24);
    CidrTokenIsRange("192.168.74.0/24", Remote, StubResolver);
    SlashTwentyFourBlock(192, 168, 74, 0, 192, 168, 74, 101);
  }

  lemma UnsetHostsDeny()
    ensures !ValidateHost(None, Remote, StubResolver)
  {
  }

  lemma EmptyHostsDeny()
    ensures !ValidateHost(Some(""), Remote, StubResolver)
  {
    UnsetOrBlankDenies(Some(""), Remote, StubResolver, "", []);
  }

  lemma OtherAddressDenies()
    ensures !ValidateHost(Some("192.168.74.102"), Remote, StubResolver)
  {
    OtherAddressIsDottedQuad();
    ParseDottedQuad(192, 168, 74, 102);
    LiteralAddressIsExact("192.168.74.102", Remote, StubResolver);
  }

  lemma OtherHostNameDenies()
    ensures !ValidateHost(Some("host2.example.com"), Remote, StubResolver)
  {
    HostNameShape("host2.example.com");
    HostNameIsResolved("host2.example.com");
  }

  lemma OtherSingleAddressBlockDenies()
    ensures !ValidateHost(Some("192.168.74.1/32"), Remote, StubResolver)
  {
    SingleAddressBlockIsDottedQuad();
    RemoteIsDottedQuad();
    ParseDottedQuad(192, 168, 74, 1);
    ParseCidrOf(DottedQuad(192, 168, 74, 1), 32);
    CidrTokenIsRange("192.168.74.1/32", Remote, StubResolver);
    SlashThirtyTwoBlock(192, 168, 74, 1, 192, 168, 74, 101);
  }

  // ---------------------------------------------------------------------------
  // isInIpAddressRange.

  lemma ExactBlockLiterals()
    ensures "192.168.74.10/32" == DottedQuad(192, 168, 74, 10) + "/" + NatToString(32)
    ensures "192.168.74.10" == DottedQuad(192, 168, 74, 10)
    ensures "192.168.74.11" == DottedQuad(192, 168, 74, 11)
  {
    OctetDecimals();
    HostDecimals();
    PrefixDecimals();
    assert Join(["192", "168", "74", "10"], '.') == "192.168.74.10";
    assert Join(["192", "168", "74", "11"], '.') == "192.168.74.11";
  }

  lemma ExactBlockHoldsItsAddress()
    ensures IsInIpAddressRange("192.168.74.10/32", "192.168.74.10")
    ensures !IsInIpAddressRange("192.168.74.10/32", "192.168.74.11")
  {
    ExactBlockLiterals();
    SlashThirtyTwoBlock(192, 168, 74, 10, 192, 168, 74, 10);
    SlashThirtyTwoBlock(192, 168, 74, 10, 192, 168, 74, 11);
  }

  lemma SubnetLiterals()
    ensures "192.168.1.0/24" == DottedQuad(192, 168, 1, 0) + "/" + NatToString(24)
    ensures "192.168.2.100" == DottedQuad(192, 168, 2, 100)
  {
    OctetDecimals();
    HostDecimals();
    PrefixDecimals();
    assert Join(["192", "168", "1", "0"], '.') == "192.168.1.0";
    assert Join(["192", "168", "2", "100"], '.') == "192.168.2.100";
  }

  lemma SubnetPrefixLiteral()
    ensures DottedQuad(192, 168, 1, 0) == NatToString(192) + ['.'] + NatToString(168) + ['.'] + NatToString(1) + ['.'] + NatToString(0)
    ensures NatToString(192) + ['.'] + NatToString(168) + ['.'] + NatToString(1) + ['.'] == "192.168.1."
  {
    OctetDecimals();
    JoinFour("192", "168", "1", "0", '.');
  }

  lemma SubnetMemberLiteral(i: nat)
    ensures "192.168.1." + NatToString(i) == DottedQuad(192, 168, 1, i)
  {
    SubnetPrefixLiteral();
    JoinFour(NatToString(192), NatToString(168), NatToString(1), NatToString(i), '.');
  }

  /** Every one of the 256 addresses 192.168.1.i lies in 192.168.1.0/24, and
      192.168.2.100 does not. */
  lemma SubnetHoldsItsAddresses()
    ensures forall i: nat :: i <= 255 ==> IsInIpAddressRange("192.168.1.0/24", "192.168.1." + NatToString(i))
    ensures !IsInIpAddressRange("192.168.1.0/24", "192.168.2.100")
  {
    SubnetLiterals();
    forall i: nat | i <= 255
      ensures IsInIpAddressRange("192.168.1.0/24", "192.168.1." + NatToString(i))
    {
      SubnetMemberLiteral(i);
      SlashTwentyFourBlock(192, 168, 1, 0, 192, 168, 1, i);
    }
    SlashTwentyFourBlock(192, 168, 1, 0, 192, 168, 2, 100);
  }

  // ---------------------------------------------------------------------------
  // validateUser, user validUser.

  lemma WildcardUserAdmits()
    ensures ValidateUser(Some("*"), "validUser")
  {
    assert "*" != "" && IsTrimmed("*") && ',' !in "*";
    TokensOfWord("*");
    WildcardAdmitsAll("*", Remote, StubResolver, "validUser", []);
  }

  lemma SameUserAdmits()
    ensures ValidateUser(Some("validUser"), "validUser")
  {
    assert IsTrimmed("validUser") && ',' !in "validUser";
    SingleUserToken("validUser", "validUser");
  }

  lemma UserNameFolds()
    ensures ToLower("validUser") == "validuser"
  {
    FoldsTo("validUser", "validuser");
  }

  lemma LowerUserNameFolds()
    ensures ToLower("validuser") == "validuser"
  {
    FoldsTo("validuser", "validuser");
  }

  lemma OtherCaseUserAdmits()
    ensures ValidateUser(Some("validuser"), "validUser")
  {
    assert IsTrimmed("validuser") && ',' !in "validuser";
    UserNameFolds();
    LowerUserNameFolds();
    SingleUserToken("validuser", "validUser");
  }

  lemma UserListAdmits()
    ensures ValidateUser(Some("validUser, tom, *"), "validUser")
  {
    assert "validUser" + "," + " tom, *" == "validUser, tom, *";
    SameUserAdmits();
    ListIsUnion("validUser", " tom, *", Remote, StubResolver, "validUser", []);
  }

  lemma UnsetOrEmptyUsersDeny()
    ensures !ValidateUser(None, "validUser")
    ensures !ValidateUser(Some(""), "validUser")
  {
    UnsetOrBlankDenies(Some(""), Remote, StubResolver, "validUser", []);
  }

  lemma OtherUserDenies()
    ensures !ValidateUser(Some("notValidUser"), "validUser")
  {
    assert IsTrimmed("notValidUser") && ',' !in "notValidUser";
    SingleUserToken("notValidUser", "validUser");
  }

  // ---------------------------------------------------------------------------
  // validateGroup: the user is in validGroup and users, and has a membership
  // whose group has no name and one without a group.

  function Memberships(): seq<MemberEntity> {
    [ MemberEntity(Some(GroupEntity(Some("validGroup")))),
      MemberEntity(Some(GroupEntity(Some("users")))),
      MemberEntity(Some(GroupEntity(None))),
      MemberEntity(None) ]
  }

  lemma WildcardGroupAdmits()
    ensures ValidateGroup(Some("*"), Memberships())
  {
    assert "*" != "" && IsTrimmed("*") && ',' !in "*";
    TokensOfWord("*");
    WildcardAdmitsAll("*", Remote, StubResolver, "validUser", Memberships());
  }

  lemma SameGroupAdmits()
    ensures ValidateGroup(Some("validGroup"), Memberships())
  {
    assert IsTrimmed("validGroup") && ',' !in "validGroup";
    assert MemberTokenAdmits("validGroup", Memberships()[0]);
    SingleGroupToken("validGroup", Memberships());
  }

  lemma GroupNameFolds()
    ensures ToLower("validGroup") == "validgroup"
  {
    FoldsTo("validGroup", "validgroup");
  }

  lemma LowerGroupNameFolds()
    ensures ToLower("validgroup") == "validgroup"
  {
    FoldsTo("validgroup", "validgroup");
  }

  lemma OtherCaseGroupAdmits()
    ensures ValidateGroup(Some("validgroup"), Memberships())
  {
    assert IsTrimmed("validgroup") && ',' !in "validgroup";
    GroupNameFolds();
    LowerGroupNameFolds();
    assert MemberTokenAdmits("validgroup", Memberships()[0]);
    SingleGroupToken("validgroup", Memberships());
  }

  lemma GroupListAdmits()
    ensures ValidateGroup(Some("validGroup, *"), Memberships())
  {
    assert "validGroup" + "," + " *" == "validGroup, *";
    SameGroupAdmits();
    ListIsUnion("validGroup", " *", Remote, StubResolver, "validUser", Memberships());
  }

  lemma UnsetOrEmptyGroupsDeny()
    ensures !ValidateGroup(None, Memberships())
    ensures !ValidateGroup(Some(""), Memberships())
  {
    UnsetOrBlankDenies(Some(""), Remote, StubResolver, "validUser", Memberships());
  }

  lemma MembershipNames()
    ensures forall m :: m in Memberships() ==>
      MemberGroupName(m) == Some("validGroup") || MemberGroupName(m) == Some("users") || MemberGroupName(m).None?
  {
  }

  lemma OtherGroupShape()
    ensures IsTrimmed("notValidGroup") && ',' !in "notValidGroup"
  {
  }

  lemma OtherGroupDenies()
    ensures !ValidateGroup(Some("notValidGroup"), Memberships())
  {
    var token := "notValidGroup";
    OtherGroupShape();
    SingleGroupToken(token, Memberships());
    MembershipNames();
    NoNameOfThatLength(token, Memberships());
  }

  /** A token matches no membership whose group name has another length. */
  lemma NoNameOfThatLength(token: string, members: seq<MemberEntity>)
    requires forall m :: m in members && MemberGroupName(m).Some? ==> |MemberGroupName(m).value| != |token|
    ensures forall m :: m in members ==> !MemberTokenAdmits(token, m)
  {
    forall m | m in members && MemberGroupName(m).Some?
      ensures !MemberTokenAdmits(token, m)
    {
      DifferentLengthsDiffer(token, MemberGroupName(m).value);
    }
  }
}
