# Ambari trusted-proxy checks, Quartz properties and the one-shot trigger

This project models three small pieces of Apache Ambari's decision logic in Dafny and proves what their tests promise.

1. **Trusted-proxy ("doAs") validation.** This is the job of `AmbariProxiedUserDetailsService`. A proxy user may act for an end user only when three configured values all admit the request:
   - allowed hosts: the remote address;
   - allowed users: the end user's name;
   - allowed groups: the end user's group memberships.

   Each value is a comma-separated list of tokens. A value that is not set (Java `null`) or is blank admits nothing.
   - A host token is one of:
     - `*`;
     - a CIDR block such as `192.168.74.0/24`, with prefix containment as in section 3.1 of RFC 4632 over RFC 791 dotted quads;
     - a literal address, compared as text;
     - a hostname, resolved by `getIpAddress` and compared with the remote address.
   - User and group tokens are `*` or names compared without regard to ASCII case.
   - Memberships whose group is null, or whose group has a null name, are skipped.
   - Modules:
     - `Text`: splitting, trimming, case folding and substring search;
     - `Decimal`: decimal spelling and parsing;
     - `Ipv4`: dotted quads, CIDR blocks and the containment test `isInIpAddressRange`;
     - `AllowList`: tokenising a configured value;
     - `ProxiedUserDetails`: the three validators;
     - `ProxiedUserCases`: every case the service's test asserts, including the stubbed resolver.
2. **Quartz properties of `ExecutionSchedulerImpl`** (module `ExecutionScheduler`).
   - The JDBC URL picks a driver delegate class and a validation query. The model's rule, which agrees with the three URLs the test fixes, is a substring search:
     - a URL that contains `postgres` gets the PostgreSQL delegate;
     - otherwise one that contains `oracle` gets the Oracle delegate and `select 0 from dual`;
     - anything else gets the standard JDBC delegate and `select 0`.
   - The scheduler's settings are copied into the Quartz property table.
3. **apscheduler's `SimpleTrigger`** (module `SimpleTriggers`). It holds one run date (an integer timestamp) and fires at that date only, when the date is not before the start asked for. Its `__str__` is `date[<run date>]`.

The implementation classes `AmbariProxiedUserDetailsService` and `ExecutionSchedulerImpl` are not modelled from their code; their behaviour follows their tests: every Java row below cites a test line. The general lemmas state the rule those cases are instances of. A second module holds the cases themselves as lemmas about literal inputs.

Decisions where the tests leave room:
- Whitespace is what Java's `String.trim` removes: every character up to U+0020.
- Empty tokens, such as those left by `a,,b`, are dropped.
- Case folding covers ASCII letters only.
- Host tokens are not case-folded.
- A malformed CIDR token or a malformed address is "not in range"; it is never an error.
- Octets are one to three digits with value at most 255. Prefix lengths are one or two digits with value at most 32.
- The resolver is a function parameter that answers `None` for a hostname that does not resolve.
- The delegate is chosen by a substring search over the whole JDBC URL, `postgres` first, then `oracle`, otherwise the standard delegate. The test fixes only one URL of each kind. A consequence is that `jdbc:mysql://postgres-db:3306/ambari` gets the PostgreSQL delegate (`HostNamedPostgres`).
- `DEFAULT_SCHEDULER_NAME` is `"ExecutionScheduler"`, the constant Ambari's `ExecutionSchedulerImpl` declares. The test only refers to the constant.

## Model

| member | source | states |
|---|---|---|
| ProxiedUserDetails.HostTokenAdmits | ambari-server/src/test/java/org/apache/ambari/server/security/authentication/kerberos/AmbariProxiedUserDetailsServiceTest.java:65-73 | `*` admits every address; a well-formed CIDR token admits what isInIpAddressRange holds and a malformed one nothing; a literal address admits only the remote address spelled the same; any other token admits exactly when the resolver maps it to the remote address |
| ProxiedUserDetails.AnyHostAdmits | ambari-server/src/test/java/org/apache/ambari/server/security/authentication/kerberos/AmbariProxiedUserDetailsServiceTest.java:65-73 | a list of host tokens admits exactly when one of its tokens admits the remote address |
| ProxiedUserDetails.ValidateHost | ambari-server/src/test/java/org/apache/ambari/server/security/authentication/kerberos/AmbariProxiedUserDetailsServiceTest.java:80-105 | validateHost admits exactly when the allowed-hosts property is set and some token of it admits the remote address; an unset property denies |
| ProxiedUserDetails.ValidateUser | ambari-server/src/test/java/org/apache/ambari/server/security/authentication/kerberos/AmbariProxiedUserDetailsServiceTest.java:130-149 | validateUser admits exactly when the allowed-users property is set and some token is `*` or equals the user name up to case; an unset property denies |
| ProxiedUserDetails.MemberAllowedMeaning | ambari-server/src/test/java/org/apache/ambari/server/security/authentication/kerberos/AmbariProxiedUserDetailsServiceTest.java:221-228 | a membership counts exactly when its group and group name are present and some token equals that name up to case |
| ProxiedUserDetails.AnyMemberAllowedMeaning | ambari-server/src/test/java/org/apache/ambari/server/security/authentication/kerberos/AmbariProxiedUserDetailsServiceTest.java:167-177 | a set of memberships counts exactly when some membership matches some token |
| ProxiedUserDetails.ValidateGroup | ambari-server/src/test/java/org/apache/ambari/server/security/authentication/kerberos/AmbariProxiedUserDetailsServiceTest.java:184-203 | validateGroup admits exactly when the allowed-groups property is set and holds `*`, or some membership's group name equals some token up to case; an unset property denies |
| ProxiedUserDetails.UnsetOrBlankDenies | ambari-server/src/test/java/org/apache/ambari/server/security/authentication/kerberos/AmbariProxiedUserDetailsServiceTest.java:69-70 | a null or blank value denies in all three validators, whatever the host, user or memberships |
| ProxiedUserDetails.WildcardAdmitsAll | ambari-server/src/test/java/org/apache/ambari/server/security/authentication/kerberos/AmbariProxiedUserDetailsServiceTest.java:65 | a `*` token anywhere in a list admits every remote address, every user and every set of memberships, including none |
| ProxiedUserDetails.ListIsUnion | ambari-server/src/test/java/org/apache/ambari/server/security/authentication/kerberos/AmbariProxiedUserDetailsServiceTest.java:123 | a list `a,b` admits exactly what `a` or `b` admits, in all three validators |
| ProxiedUserDetails.SingleHostToken | ambari-server/src/test/java/org/apache/ambari/server/security/authentication/kerberos/AmbariProxiedUserDetailsServiceTest.java:65-73 | a value made of one clean token decides by that token alone |
| ProxiedUserDetails.LiteralAddressIsExact | ambari-server/src/test/java/org/apache/ambari/server/security/authentication/kerberos/AmbariProxiedUserDetailsServiceTest.java:66 | a literal-address token admits exactly the remote address spelled the same |
| ProxiedUserDetails.CidrTokenIsRange | ambari-server/src/test/java/org/apache/ambari/server/security/authentication/kerberos/AmbariProxiedUserDetailsServiceTest.java:68 | a CIDR token admits exactly the remote addresses isInIpAddressRange puts inside its block |
| ProxiedUserDetails.HostNameTokenResolves | ambari-server/src/test/java/org/apache/ambari/server/security/authentication/kerberos/AmbariProxiedUserDetailsServiceTest.java:50-59 | a hostname token admits exactly when it resolves to the remote address; an unresolved hostname denies |
| ProxiedUserDetails.LessResolutionAdmitsLess | ambari-server/src/test/java/org/apache/ambari/server/security/authentication/kerberos/AmbariProxiedUserDetailsServiceTest.java:50-59 | a resolver that leaves more names unresolved, and otherwise agrees, never admits more (fail-closed) |
| ProxiedUserDetails.ValidateUserIgnoresCase | ambari-server/src/test/java/org/apache/ambari/server/security/authentication/kerberos/AmbariProxiedUserDetailsServiceTest.java:122 | the decision for a user name equals the decision for its lower- and upper-cased spellings |
| ProxiedUserDetails.SingleUserToken | ambari-server/src/test/java/org/apache/ambari/server/security/authentication/kerberos/AmbariProxiedUserDetailsServiceTest.java:121-122 | a single name admits exactly the users whose name equals it up to case |
| ProxiedUserDetails.SingleGroupToken | ambari-server/src/test/java/org/apache/ambari/server/security/authentication/kerberos/AmbariProxiedUserDetailsServiceTest.java:160-161 | a single group name admits exactly the users with a membership in a group of that name, up to case |
| ProxiedUserDetails.NullMembershipsAreSkipped | ambari-server/src/test/java/org/apache/ambari/server/security/authentication/kerberos/AmbariProxiedUserDetailsServiceTest.java:170-177 | adding a membership with a null group or null group name, at either end, never changes the decision |
| ProxiedUserDetails.ValidateGroupUsesMembershipSet | ambari-server/src/test/java/org/apache/ambari/server/security/authentication/kerberos/AmbariProxiedUserDetailsServiceTest.java:167 | two membership sequences with the same members get the same decision (the memberships are a set) |
| ProxiedUserDetails.MoreMembershipsAdmitMore | ambari-server/src/test/java/org/apache/ambari/server/security/authentication/kerberos/AmbariProxiedUserDetailsServiceTest.java:167-169 | gaining a membership never revokes permission |
| AllowList.CleanPiece | ambari-server/src/test/java/org/apache/ambari/server/security/authentication/kerberos/AmbariProxiedUserDetailsServiceTest.java:123 | a piece between commas gives at most one token |
| AllowList.FoldedTokens | ambari-server/src/test/java/org/apache/ambari/server/security/authentication/kerberos/AmbariProxiedUserDetailsServiceTest.java:122 | case folding keeps one folded token per token |
| AllowList.CleanMembers | ambari-server/src/test/java/org/apache/ambari/server/security/authentication/kerberos/AmbariProxiedUserDetailsServiceTest.java:123 | a token is a non-empty trimmed piece of the list, and every non-empty trimmed piece is a token |
| AllowList.Tokens | ambari-server/src/test/java/org/apache/ambari/server/security/authentication/kerberos/AmbariProxiedUserDetailsServiceTest.java:123 | every non-blank comma-separated piece contributes its trimmed form as a token, and every token is non-empty, trimmed and free of commas |
| AllowList.TokensAppend | ambari-server/src/test/java/org/apache/ambari/server/security/authentication/kerberos/AmbariProxiedUserDetailsServiceTest.java:123 | the tokens of `a,b` are the tokens of `a` followed by those of `b` |
| AllowList.TokensOfWord | ambari-server/src/test/java/org/apache/ambari/server/security/authentication/kerberos/AmbariProxiedUserDetailsServiceTest.java:121 | a clean word is its own only token |
| AllowList.TokensOfBlank | ambari-server/src/test/java/org/apache/ambari/server/security/authentication/kerberos/AmbariProxiedUserDetailsServiceTest.java:125 | a blank value has no tokens |
| AllowList.FoldedMembers | ambari-server/src/test/java/org/apache/ambari/server/security/authentication/kerberos/AmbariProxiedUserDetailsServiceTest.java:137 | a folded token is the lower-cased spelling of some token, and each token's spelling is there |
| AllowList.FoldedStar | ambari-server/src/test/java/org/apache/ambari/server/security/authentication/kerberos/AmbariProxiedUserDetailsServiceTest.java:131 | `*` is a folded token exactly when it is a token |
| Ipv4.ParseAddress | ambari-server/src/test/java/org/apache/ambari/server/security/authentication/kerberos/AmbariProxiedUserDetailsServiceTest.java:212-218 | a well-formed address is four dot-separated octets below 256, so it holds digits and dots only (its value is given by ParseDottedQuad) |
| Ipv4.ParseDottedQuad | ambari-server/src/test/java/org/apache/ambari/server/security/authentication/kerberos/AmbariProxiedUserDetailsServiceTest.java:216 | four octets written in decimal and joined by dots parse to the address they spell |
| Ipv4.ParseFormatAddress | ambari-server/src/test/java/org/apache/ambari/server/security/authentication/kerberos/AmbariProxiedUserDetailsServiceTest.java:216 | every address has a canonical dotted quad that parses back to it |
| Ipv4.ParseCidr | ambari-server/src/test/java/org/apache/ambari/server/security/authentication/kerberos/AmbariProxiedUserDetailsServiceTest.java:212 | a block that parses is an address, its one slash and a prefix length of at most 32, and denotes that address and length (ParseCidrOf is the converse) |
| Ipv4.ParseCidrOf | ambari-server/src/test/java/org/apache/ambari/server/security/authentication/kerberos/AmbariProxiedUserDetailsServiceTest.java:212 | an address and a prefix length of at most 32, joined by a slash, parse to that block |
| Ipv4.NotAnAddress | ambari-server/src/test/java/org/apache/ambari/server/security/authentication/kerberos/AmbariProxiedUserDetailsServiceTest.java:67 | a string with a character other than a digit or a dot is no literal address, so a hostname is classified as one |
| Ipv4.NoSeparatorsInAddress | ambari-server/src/test/java/org/apache/ambari/server/security/authentication/kerberos/AmbariProxiedUserDetailsServiceTest.java:66 | a literal address is a single clean token: non-empty, trimmed, with no comma or slash |
| Ipv4.NoSeparatorsInCidr | ambari-server/src/test/java/org/apache/ambari/server/security/authentication/kerberos/AmbariProxiedUserDetailsServiceTest.java:68 | a CIDR token is a single clean token |
| Ipv4.IsInIpAddressRange | ambari-server/src/test/java/org/apache/ambari/server/security/authentication/kerberos/AmbariProxiedUserDetailsServiceTest.java:212-218 | isInIpAddressRange holds exactly when block and address both parse and the address lies between the block's first and last address, network and broadcast addresses included; a malformed block or address is in no range |
| Ipv4.PrefixIffWithinBlock | ambari-server/src/test/java/org/apache/ambari/server/security/authentication/kerberos/AmbariProxiedUserDetailsServiceTest.java:212-218 | two addresses share the first n bits exactly when the second lies in the n-bit block of the first |
| Ipv4.FullPrefixIsExact | ambari-server/src/test/java/org/apache/ambari/server/security/authentication/kerberos/AmbariProxiedUserDetailsServiceTest.java:212-213 | a /32 block holds exactly its own address |
| Ipv4.ZeroPrefixHoldsAll | ambari-server/src/test/java/org/apache/ambari/server/security/authentication/kerberos/AmbariProxiedUserDetailsServiceTest.java:212-218 | isInIpAddressRange with a /0 block holds every well-formed address; the test checks no /0 block |
| Ipv4.MalformedNeverInRange | ambari-server/src/test/java/org/apache/ambari/server/security/authentication/kerberos/AmbariProxiedUserDetailsServiceTest.java:212-218 | a block or address that does not parse is never in range |
| Ipv4.ShorterPrefixContains | ambari-server/src/test/java/org/apache/ambari/server/security/authentication/kerberos/AmbariProxiedUserDetailsServiceTest.java:212-218 | blocks nest: addresses sharing a longer prefix share every shorter one, so isInIpAddressRange's answer for a block carries over to the blocks around it; the test checks no nested blocks |
| Ipv4.PrefixTwentyFourOctets | ambari-server/src/test/java/org/apache/ambari/server/security/authentication/kerberos/AmbariProxiedUserDetailsServiceTest.java:215-218 | two addresses share 24 bits exactly when their first three octets agree |
| Ipv4.QuadValueInjective | ambari-server/src/test/java/org/apache/ambari/server/security/authentication/kerberos/AmbariProxiedUserDetailsServiceTest.java:212-213 | two addresses are equal exactly when their four octets are |
| Ipv4.SlashTwentyFourBlock | ambari-server/src/test/java/org/apache/ambari/server/security/authentication/kerberos/AmbariProxiedUserDetailsServiceTest.java:215-218 | a textual /24 block holds exactly the dotted quads that share its first three octets |
| Ipv4.SlashThirtyTwoBlock | ambari-server/src/test/java/org/apache/ambari/server/security/authentication/kerberos/AmbariProxiedUserDetailsServiceTest.java:212-213 | a textual /32 block holds exactly the dotted quad it names |
| ProxiedUserCases.StubResolver | ambari-server/src/test/java/org/apache/ambari/server/security/authentication/kerberos/AmbariProxiedUserDetailsServiceTest.java:50-59 | the stub resolves host1.example.com and host2.example.com and nothing else |
| ProxiedUserCases.WildcardHostAdmits | ambari-server/src/test/java/org/apache/ambari/server/security/authentication/kerberos/AmbariProxiedUserDetailsServiceTest.java:80-81 | `*` admits 192.168.74.101 |
| ProxiedUserCases.OwnAddressAdmits | ambari-server/src/test/java/org/apache/ambari/server/security/authentication/kerberos/AmbariProxiedUserDetailsServiceTest.java:83-84 | `192.168.74.101` admits 192.168.74.101 |
| ProxiedUserCases.ResolvingHostNameAdmits | ambari-server/src/test/java/org/apache/ambari/server/security/authentication/kerberos/AmbariProxiedUserDetailsServiceTest.java:86-87 | host1.example.com, which resolves to the remote address, admits it |
| ProxiedUserCases.EnclosingSubnetAdmits | ambari-server/src/test/java/org/apache/ambari/server/security/authentication/kerberos/AmbariProxiedUserDetailsServiceTest.java:89-90 | `192.168.74.0/24` admits 192.168.74.101 |
| ProxiedUserCases.UnsetHostsDeny | ambari-server/src/test/java/org/apache/ambari/server/security/authentication/kerberos/AmbariProxiedUserDetailsServiceTest.java:92-93 | an unset allowed-hosts value denies |
| ProxiedUserCases.EmptyHostsDeny | ambari-server/src/test/java/org/apache/ambari/server/security/authentication/kerberos/AmbariProxiedUserDetailsServiceTest.java:95-96 | an empty allowed-hosts value denies |
| ProxiedUserCases.OtherAddressDenies | ambari-server/src/test/java/org/apache/ambari/server/security/authentication/kerberos/AmbariProxiedUserDetailsServiceTest.java:98-99 | `192.168.74.102` denies 192.168.74.101 |
| ProxiedUserCases.OtherHostNameDenies | ambari-server/src/test/java/org/apache/ambari/server/security/authentication/kerberos/AmbariProxiedUserDetailsServiceTest.java:101-102 | host2.example.com, which resolves elsewhere, denies |
| ProxiedUserCases.OtherSingleAddressBlockDenies | ambari-server/src/test/java/org/apache/ambari/server/security/authentication/kerberos/AmbariProxiedUserDetailsServiceTest.java:104-105 | `192.168.74.1/32` denies 192.168.74.101 |
| ProxiedUserCases.ExactBlockHoldsItsAddress | ambari-server/src/test/java/org/apache/ambari/server/security/authentication/kerberos/AmbariProxiedUserDetailsServiceTest.java:212-213 | `192.168.74.10/32` holds 192.168.74.10 and not 192.168.74.11 |
| ProxiedUserCases.SubnetHoldsItsAddresses | ambari-server/src/test/java/org/apache/ambari/server/security/authentication/kerberos/AmbariProxiedUserDetailsServiceTest.java:215-218 | `192.168.1.0/24` holds 192.168.1.i for every i from 0 to 255 and not 192.168.2.100 |
| ProxiedUserCases.WildcardUserAdmits | ambari-server/src/test/java/org/apache/ambari/server/security/authentication/kerberos/AmbariProxiedUserDetailsServiceTest.java:131 | `*` admits validUser |
| ProxiedUserCases.SameUserAdmits | ambari-server/src/test/java/org/apache/ambari/server/security/authentication/kerberos/AmbariProxiedUserDetailsServiceTest.java:134 | `validUser` admits validUser |
| ProxiedUserCases.OtherCaseUserAdmits | ambari-server/src/test/java/org/apache/ambari/server/security/authentication/kerberos/AmbariProxiedUserDetailsServiceTest.java:137 | `validuser` admits validUser |
| ProxiedUserCases.UserListAdmits | ambari-server/src/test/java/org/apache/ambari/server/security/authentication/kerberos/AmbariProxiedUserDetailsServiceTest.java:140 | `validUser, tom, *` admits validUser |
| ProxiedUserCases.UnsetOrEmptyUsersDeny | ambari-server/src/test/java/org/apache/ambari/server/security/authentication/kerberos/AmbariProxiedUserDetailsServiceTest.java:143-146 | an unset or empty allowed-users value denies validUser |
| ProxiedUserCases.OtherUserDenies | ambari-server/src/test/java/org/apache/ambari/server/security/authentication/kerberos/AmbariProxiedUserDetailsServiceTest.java:149 | `notValidUser` denies validUser |
| ProxiedUserCases.WildcardGroupAdmits | ambari-server/src/test/java/org/apache/ambari/server/security/authentication/kerberos/AmbariProxiedUserDetailsServiceTest.java:185 | `*` admits the user with memberships validGroup, users, a nameless group and no group |
| ProxiedUserCases.SameGroupAdmits | ambari-server/src/test/java/org/apache/ambari/server/security/authentication/kerberos/AmbariProxiedUserDetailsServiceTest.java:188 | `validGroup` admits that user |
| ProxiedUserCases.OtherCaseGroupAdmits | ambari-server/src/test/java/org/apache/ambari/server/security/authentication/kerberos/AmbariProxiedUserDetailsServiceTest.java:191 | `validgroup` admits that user |
| ProxiedUserCases.GroupListAdmits | ambari-server/src/test/java/org/apache/ambari/server/security/authentication/kerberos/AmbariProxiedUserDetailsServiceTest.java:194 | `validGroup, *` admits that user |
| ProxiedUserCases.UnsetOrEmptyGroupsDeny | ambari-server/src/test/java/org/apache/ambari/server/security/authentication/kerberos/AmbariProxiedUserDetailsServiceTest.java:197-200 | an unset or empty allowed-groups value denies that user |
| ProxiedUserCases.OtherGroupDenies | ambari-server/src/test/java/org/apache/ambari/server/security/authentication/kerberos/AmbariProxiedUserDetailsServiceTest.java:203 | `notValidGroup` denies that user: neither named group matches and the null memberships are skipped |
| ExecutionScheduler.QuartzDbDelegateClassAndValidationQuery | ambari-server/src/test/java/org/apache/ambari/server/scheduler/ExecutionSchedulerTest.java:106-136 | the model's rule: PostgreSQL's delegate exactly when the URL contains `postgres`; Oracle's exactly when it contains `oracle` and not `postgres`; the standard delegate otherwise; `select 0 from dual` exactly with Oracle's delegate |
| ExecutionScheduler.ValidationQueryFollowsDelegate | ambari-server/src/test/java/org/apache/ambari/server/scheduler/ExecutionSchedulerTest.java:128-136 | the validation query is a function of the delegate class alone |
| ExecutionScheduler.ThreeDelegates | ambari-server/src/test/java/org/apache/ambari/server/scheduler/ExecutionSchedulerTest.java:106-136 | every URL gets one of exactly three delegate and query pairs |
| ExecutionScheduler.DatabaseNameDecides | ambari-server/src/test/java/org/apache/ambari/server/scheduler/ExecutionSchedulerTest.java:107-116 | under the model's substring rule, whatever surrounds it, `postgres` in the URL selects PostgreSQL and `oracle` without `postgres` selects Oracle |
| ExecutionScheduler.QuartzSchedulerProperties | ambari-server/src/test/java/org/apache/ambari/server/scheduler/ExecutionSchedulerTest.java:76-88 | the property table has exactly the ten keys |
| ExecutionScheduler.PropertiesReflectConfig | ambari-server/src/test/java/org/apache/ambari/server/scheduler/ExecutionSchedulerTest.java:78-88 | thread count, max connections, clustering, driver, URL and user are the configured values; the delegate and query are the pair chosen for the URL; the instance name and thread-pool class are fixed |
| ExecutionScheduler.EntriesAreIndependent | ambari-server/src/test/java/org/apache/ambari/server/scheduler/ExecutionSchedulerTest.java:48-53 | an entry differs between two tables only if the setting it comes from differs; the two fixed entries never differ |
| ExecutionScheduler.PostgreSqlUrl | ambari-server/src/test/java/org/apache/ambari/server/scheduler/ExecutionSchedulerTest.java:106-116 | `jdbc:postgresql://host:port/dbname` gets PostgreSQLDelegate and `select 0` |
| ExecutionScheduler.MySqlUrl | ambari-server/src/test/java/org/apache/ambari/server/scheduler/ExecutionSchedulerTest.java:118-126 | `jdbc:mysql://host:port/dbname` gets StdJDBCDelegate and `select 0` |
| ExecutionScheduler.OracleUrl | ambari-server/src/test/java/org/apache/ambari/server/scheduler/ExecutionSchedulerTest.java:128-136 | `jdbc:oracle:thin://host:port/dbname` gets oracle.OracleDelegate and `select 0 from dual` |
| ExecutionScheduler.HostNamedPostgres | ambari-server/src/test/java/org/apache/ambari/server/scheduler/ExecutionSchedulerTest.java:106-116 | under the model's substring rule, a MySQL URL whose host is `postgres-db` gets the PostgreSQL delegate |
| ExecutionScheduler.SetupProperties | ambari-server/src/test/java/org/apache/ambari/server/scheduler/ExecutionSchedulerTest.java:78-88 | with the setup's configuration the table holds the seven values the test asserts |
| SimpleTriggers.GetNextFireTime | ambari-agent/src/main/python/ambari_agent/apscheduler/triggers/simple.py:9-11 | a fire time exists exactly when the start is not after the run date, and it is the run date |
| SimpleTriggers.Describe | ambari-agent/src/main/python/ambari_agent/apscheduler/triggers/simple.py:13-14 | the description is bracketed by `date[` and `]` |
| SimpleTriggers.Repr | ambari-agent/src/main/python/ambari_agent/apscheduler/triggers/simple.py:16-17 | the representation is bracketed by `<SimpleTrigger (run_date=` and `)>` |
| SimpleTriggers.FiresAtBoundary | ambari-agent/src/main/python/ambari_agent/apscheduler/triggers/simple.py:10 | a start equal to the run date still fires; one unit later does not |
| SimpleTriggers.NeverBeforeStart | ambari-agent/src/main/python/ambari_agent/apscheduler/triggers/simple.py:10-11 | a fire time is never earlier than the start |
| SimpleTriggers.OnlyOneFireTime | ambari-agent/src/main/python/ambari_agent/apscheduler/triggers/simple.py:7-11 | whatever the start, the only fire time is the run date the trigger was made with |
| SimpleTriggers.LaterStartFiresLess | ambari-agent/src/main/python/ambari_agent/apscheduler/triggers/simple.py:9-11 | once the run date is missed, later starts give no fire time; before that the answer is the same |
| SimpleTriggers.DescriptionRoundTrip | ambari-agent/src/main/python/ambari_agent/apscheduler/triggers/simple.py:13-14 | the run date can be read back from the description |
| SimpleTriggers.DescriptionsDiffer | ambari-agent/src/main/python/ambari_agent/apscheduler/triggers/simple.py:13-14 | triggers with different run dates have different descriptions |
| SimpleTriggers.ReprRoundTrip | ambari-agent/src/main/python/ambari_agent/apscheduler/triggers/simple.py:16-17 | the run date can be read back from the representation |
| SimpleTriggers.ReprsDiffer | ambari-agent/src/main/python/ambari_agent/apscheduler/triggers/simple.py:16-17 | triggers with different run dates have different representations |

## Left out

- The implementation classes `AmbariProxiedUserDetailsService` and `ExecutionSchedulerImpl` are not modelled from their code. Their behaviour follows their tests, as described above.
- Real DNS resolution inside `getIpAddress` is network I/O. It is a resolver parameter, and the test's stub is one such resolver.
- The EasyMock and Mockito scaffolding is test machinery, not behaviour. This covers strict call ordering, `replay`/`verify` and partial mocks.
- The Quartz scheduler lifecycle is delegation to a third-party scheduler plus locking. This covers `startScheduler`, `stopScheduler`, `startDelayed`, `shutdown` and `initializeScheduler`.
- The `Configuration` class and JDBC connectivity are left out. Configuration values are plain inputs (`SchedulerConfig`). `SERVER_DB_NAME` is not among them, because the delegate choice looks at the URL only.
- Quartz properties that the test neither asserts nor configures are not in the table, for example the job-store class and the data-source password.
- `convert_to_datetime` and Python's datetime type are foreign code. Run dates are integer timestamps that `__init__` stores as given.
- SimpleTriggers.Repr: `repr(run_date)` of a Python datetime (`datetime.datetime(...)`) is also modelled as the decimal spelling of the timestamp. The representation therefore carries the same text as the description, which Python's does not.
- SimpleTriggers.Describe: `str(run_date)` of a Python datetime is modelled as the decimal spelling of the timestamp, not as a calendar date and time.
- `ManifestServiceInfo` and `ConfigurationMarkdown` have no behaviour: one is a data holder, the other an annotation declaration.
- Kerberos authentication of the proxy principal and IPv6 addresses are not exercised by the sources.
- The composite decision (host and user and group) is not modelled; no source file performs it.
- Unicode case folding is left out: names are compared after ASCII lower-casing.
- Java's set iteration order and short-circuit evaluation are left out. The validators are stated as existentials over the tokens and memberships.
- Exceptions from a library subnet parser are left out: a malformed CIDR token counts as "not in range" and the remaining tokens are still tried.
