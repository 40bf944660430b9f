/** `AzureCredentials.ServicePrincipal`: an immutable Azure service-principal
    credential with default cloud endpoints, a tenant derived from the legacy
    OAuth 2.0 token endpoint, and a fail-fast validation that ends with a
    call to a remote verifier. */
module Credentials {
  import opened Wrappers
  import opened JavaStrings
  import opened TokenEndpoint

  /** The plugin constants this class reads. Their values live outside the
      class and are not fixed by this model. */
  datatype Constants = Constants(
    defaultManagementUrl: string,
    defaultAuthenticationEndpoint: string,
    defaultResourceManagerEndpoint: string,
    defaultGraphEndpoint: string,
    opSuccess: string)
  {
    /** Every default endpoint is a non-blank URL. */
    predicate Valid() {
      && !Blank(defaultManagementUrl)
      && !Blank(defaultAuthenticationEndpoint)
      && !Blank(defaultResourceManagerEndpoint)
      && !Blank(defaultGraphEndpoint)
    }
  }

  /** The messages of the local checks of `validate`. */
  const ErrorPrefix: string := "Error: "
  const SubscriptionMissing: string := ErrorPrefix + "Subscription ID is missing"
  const ClientIdMissing: string := ErrorPrefix + "Native Client ID is missing"
  const SecretMissing: string := ErrorPrefix + "Azure Password is missing"
  const EndpointMissing: string := ErrorPrefix + "OAuth 2.0 Token Endpoint is missing"
  const EndpointMalformed: string := ErrorPrefix + "OAuth 2.0 Token Endpoint is malformed"

  predicate HasErrorPrefix(m: string) {
    |m| >= |ErrorPrefix| && m[..|ErrorPrefix|] == ErrorPrefix
  }

  /** The remote check: the credential, the resource group name, the VM
      limit and the deployment timeout, to a response string. */
  type Verifier = (ServicePrincipal, string, string, string) -> string

  /** One local check of `validate`: whether it fails and what it reports. */
  datatype Check = Check(fails: bool, message: string)

  /** The message of the first failing check, if any. */
  function FirstFailure(checks: seq<Check>): (r: Option<string>)
    ensures r.None? <==> forall i :: 0 <= i < |checks| ==> !checks[i].fails
    ensures r.Some? ==> exists i :: 0 <= i < |checks| && checks[i].fails && r.value == checks[i].message
                                    && forall j :: 0 <= j < i ==> !checks[j].fails
  {
    if checks == [] then None
    else if checks[0].fails then Some(checks[0].message)
    else
      var r := FirstFailure(checks[1..]);
      assert r.Some? ==> exists i :: 0 <= i < |checks[1..]| && checks[1..][i].fails && r.value == checks[1..][i].message
                                    && forall j :: 0 <= j < i ==> !checks[1..][j].fails;
      r
  }

  /** The fields of a service principal. Every field is a nullable reference:
      a record deserialised before a field existed holds `null` there. The
      four secrets are kept as their plaintext. */
  datatype ServicePrincipal = ServicePrincipal(
    subscriptionId: JString,
    clientId: JString,
    clientSecret: JString,
    oauth2TokenEndpoint: JString,
    serviceManagementUrl: JString,
    tenant: JString,
    authenticationEndpoint: JString,
    resourceManagerEndpoint: JString,
    graphEndpoint: JString)
  {
    /** `getSubscriptionId`: the plaintext, `""` for a null secret. */
    function SubscriptionId(): (r: string)
      ensures subscriptionId.None? ==> r == ""
      ensures subscriptionId.Some? ==> r == subscriptionId.value
      ensures Blank(r) <==> BlankOrNull(subscriptionId)
    {
      FixNull(subscriptionId)
    }

    /** `getClientId`: the plaintext, `""` for a null secret. */
    function ClientId(): (r: string)
      ensures clientId.None? ==> r == ""
      ensures clientId.Some? ==> r == clientId.value
      ensures Blank(r) <==> BlankOrNull(clientId)
    {
      FixNull(clientId)
    }

    /** `getClientSecret`: the plaintext, `""` for a null secret. */
    function ClientSecret(): (r: string)
      ensures clientSecret.None? ==> r == ""
      ensures clientSecret.Some? ==> r == clientSecret.value
      ensures Blank(r) <==> BlankOrNull(clientSecret)
    {
      FixNull(clientSecret)
    }

    /** `getTenant`: the stored tenant, or for a legacy record without one,
        the tenant derived from the token endpoint (from `""` when that is
        null too). */
    function Tenant(): (r: string)
      ensures tenant.Some? ==> r == tenant.value
      ensures tenant.None? && oauth2TokenEndpoint.None? ==> r == ""
      ensures tenant.None? && oauth2TokenEndpoint.Some? ==> r == TenantFromTokenEndpoint(oauth2TokenEndpoint.value)
    {
      match tenant
      case None => TenantFromTokenEndpoint(FixNull(oauth2TokenEndpoint))
      case Some(t) => t
    }

    /** Every endpoint field is null (a legacy record) or a non-blank URL. */
    predicate EndpointsWellFormed() {
      && (serviceManagementUrl.None? || !Blank(serviceManagementUrl.value))
      && (authenticationEndpoint.None? || !Blank(authenticationEndpoint.value))
      && (resourceManagerEndpoint.None? || !Blank(resourceManagerEndpoint.value))
      && (graphEndpoint.None? || !Blank(graphEndpoint.value))
    }

    /** `getServiceManagementURL`: the stored URL, the default for a null. */
    function ServiceManagementUrl(c: Constants): (r: string)
      ensures serviceManagementUrl.None? ==> r == c.defaultManagementUrl
      ensures serviceManagementUrl.Some? ==> r == serviceManagementUrl.value
      ensures c.Valid() && EndpointsWellFormed() ==> !Blank(r)
    {
      serviceManagementUrl.GetOr(c.defaultManagementUrl)
    }

    /** `getAuthenticationEndpoint`: the stored URL, the default for a null. */
    function AuthenticationEndpoint(c: Constants): (r: string)
      ensures authenticationEndpoint.None? ==> r == c.defaultAuthenticationEndpoint
      ensures authenticationEndpoint.Some? ==> r == authenticationEndpoint.value
      ensures c.Valid() && EndpointsWellFormed() ==> !Blank(r)
    {
      authenticationEndpoint.GetOr(c.defaultAuthenticationEndpoint)
    }

    /** `getResourceManagerEndpoint`: the stored URL, the default for a null. */
    function ResourceManagerEndpoint(c: Constants): (r: string)
      ensures resourceManagerEndpoint.None? ==> r == c.defaultResourceManagerEndpoint
      ensures resourceManagerEndpoint.Some? ==> r == resourceManagerEndpoint.value
      ensures c.Valid() && EndpointsWellFormed() ==> !Blank(r)
    {
      resourceManagerEndpoint.GetOr(c.defaultResourceManagerEndpoint)
    }

    /** `getGraphEndpoint`: the stored URL, the default for a null. */
    function GraphEndpoint(c: Constants): (r: string)
      ensures graphEndpoint.None? ==> r == c.defaultGraphEndpoint
      ensures graphEndpoint.Some? ==> r == graphEndpoint.value
      ensures c.Valid() && EndpointsWellFormed() ==> !Blank(r)
    {
      graphEndpoint.GetOr(c.defaultGraphEndpoint)
    }

    /** All four secrets are present, as in every record built by a
        constructor. */
    predicate SecretsPresent() {
      subscriptionId.Some? && clientId.Some? && clientSecret.Some? && oauth2TokenEndpoint.Some?
    }

    /** `isBlank` reads the subscription ID, the client ID, the token
        endpoint and the client secret in that order without a null check,
        and stops at the first blank one: it returns, rather than throwing a
        `NullPointerException`, exactly when every secret it reaches is
        present. */
    predicate IsBlankDefined()
      ensures SecretsPresent() ==> IsBlankDefined()
      ensures subscriptionId.None? ==> !IsBlankDefined()
      ensures subscriptionId.Some? && Blank(subscriptionId.value) ==> IsBlankDefined()
      ensures !BlankOrNull(subscriptionId) && !BlankOrNull(clientId) && !BlankOrNull(oauth2TokenEndpoint)
              ==> (IsBlankDefined() <==> clientSecret.Some?)
    {
      && subscriptionId.Some?
      && (Blank(subscriptionId.value) || clientId.Some?)
      && (Blank(subscriptionId.value) || Blank(clientId.value) || oauth2TokenEndpoint.Some?)
      && (Blank(subscriptionId.value) || Blank(clientId.value) || Blank(oauth2TokenEndpoint.value)
          || clientSecret.Some?)
    }

    /** The same for `validate`, whose checks read the subscription ID, the
        client ID, the client secret and the token endpoint in that order. */
    predicate ValidateDefined()
      ensures SecretsPresent() ==> ValidateDefined()
      ensures subscriptionId.None? ==> !ValidateDefined()
      ensures subscriptionId.Some? && Blank(subscriptionId.value) ==> ValidateDefined()
      ensures !BlankOrNull(subscriptionId) && !BlankOrNull(clientId) && !BlankOrNull(clientSecret)
              ==> (ValidateDefined() <==> oauth2TokenEndpoint.Some?)
    {
      && subscriptionId.Some?
      && (Blank(subscriptionId.value) || clientId.Some?)
      && (Blank(subscriptionId.value) || Blank(clientId.value) || clientSecret.Some?)
      && (Blank(subscriptionId.value) || Blank(clientId.value) || Blank(clientSecret.value)
          || oauth2TokenEndpoint.Some?)
    }

    /** `isBlank`: some required secret is blank. */
    function IsBlank(): (r: bool)
      requires IsBlankDefined()
      ensures r <==> Blank(SubscriptionId()) || Blank(ClientId()) || Blank(ClientSecret())
                     || BlankOrNull(oauth2TokenEndpoint)
    {
      || Blank(subscriptionId.value)
      || Blank(clientId.value)
      || Blank(oauth2TokenEndpoint.value)
      || Blank(clientSecret.value)
    }

    /** The local checks of `validate`, in the order they run. A null field
        counts as failing its check; `validate` itself never reaches a null
        field when `ValidateDefined()` holds. */
    function LocalChecks(): (checks: seq<Check>)
      ensures |checks| == 5
      ensures forall i :: 0 <= i < |checks| ==> HasErrorPrefix(checks[i].message)
    {
      [ Check(Blank(SubscriptionId()), SubscriptionMissing),
        Check(Blank(ClientId()), ClientIdMissing),
        Check(Blank(ClientSecret()), SecretMissing),
        Check(BlankOrNull(oauth2TokenEndpoint), EndpointMissing),
        Check(Blank(Tenant()), EndpointMalformed) ]
    }

    /** The local part of `validate`: the message it throws before reaching
        the verifier, or `None` when every local check passes. */
    function LocalFailure(): (r: Option<string>)
      requires ValidateDefined()
      ensures r.None? <==> && !Blank(SubscriptionId()) && !Blank(ClientId()) && !Blank(ClientSecret())
                           && !BlankOrNull(oauth2TokenEndpoint) && !Blank(Tenant())
      ensures r.None? ==> SecretsPresent()
      ensures r.Some? ==> HasErrorPrefix(r.value)
    {
      if Blank(subscriptionId.value) then Some(SubscriptionMissing)
      else if Blank(clientId.value) then Some(ClientIdMissing)
      else if Blank(clientSecret.value) then Some(SecretMissing)
      else if Blank(oauth2TokenEndpoint.value) then Some(EndpointMissing)
      else if Blank(Tenant()) then Some(EndpointMalformed)
      else None
    }

    /** `validate`: `Ok(true)`, or `Err` with the message of the exception. */
    function Validate(c: Constants, verify: Verifier, resourceGroupName: string,
                      maxVMLimit: string, deploymentTimeout: string): (r: Result<bool, string>)
      requires ValidateDefined()
      ensures r.Ok? ==> r.value
      ensures r.Ok? <==> LocalFailure().None?
                         && EqualsIgnoreCase(c.opSuccess, verify(this, resourceGroupName, maxVMLimit, deploymentTimeout))
      ensures r.Err? && LocalFailure().Some? ==> r.error == LocalFailure().value
      ensures r.Err? && LocalFailure().None? ==> r.error == verify(this, resourceGroupName, maxVMLimit, deploymentTimeout)
    {
      match LocalFailure()
      case Some(message) => Err(message)
      case None =>
        var response := verify(this, resourceGroupName, maxVMLimit, deploymentTimeout);
        if EqualsIgnoreCase(c.opSuccess, response) then Ok(true) else Err(response)
    }
  }

  /** `StringUtils.isBlank(s) ? default : s`. */
  function OrDefault(s: JString, default: string): (r: string)
    ensures BlankOrNull(s) ==> r == default
    ensures !BlankOrNull(s) ==> r == s.value
  {
    if BlankOrNull(s) then default else s.value
  }

  /** The eight-argument constructor. The token endpoint must not be null:
      deriving the tenant from it would throw. `Secret.fromString` turns a
      null secret into `""`. */
  function NewServicePrincipal(
    c: Constants,
    subscriptionId: JString,
    clientId: JString,
    clientSecret: JString,
    oauth2TokenEndpoint: string,
    serviceManagementUrl: JString,
    authenticationEndpoint: JString,
    resourceManagerEndpoint: JString,
    graphEndpoint: JString): (sp: ServicePrincipal)
    ensures sp.SecretsPresent()
    ensures sp.SubscriptionId() == FixNull(subscriptionId)
    ensures sp.ClientId() == FixNull(clientId)
    ensures sp.ClientSecret() == FixNull(clientSecret)
    ensures sp.oauth2TokenEndpoint == Some(oauth2TokenEndpoint)
    ensures sp.Tenant() == TenantFromTokenEndpoint(oauth2TokenEndpoint)
    ensures sp.ServiceManagementUrl(c) == OrDefault(serviceManagementUrl, c.defaultManagementUrl)
    ensures sp.AuthenticationEndpoint(c) == OrDefault(authenticationEndpoint, c.defaultAuthenticationEndpoint)
    ensures sp.ResourceManagerEndpoint(c) == OrDefault(resourceManagerEndpoint, c.defaultResourceManagerEndpoint)
    ensures sp.GraphEndpoint(c) == OrDefault(graphEndpoint, c.defaultGraphEndpoint)
    ensures c.Valid() ==> sp.EndpointsWellFormed()
  {
    ServicePrincipal(
      Some(FixNull(subscriptionId)),
      Some(FixNull(clientId)),
      Some(FixNull(clientSecret)),
      Some(oauth2TokenEndpoint),
      Some(OrDefault(serviceManagementUrl, c.defaultManagementUrl)),
      Some(TenantFromTokenEndpoint(oauth2TokenEndpoint)),
      Some(OrDefault(authenticationEndpoint, c.defaultAuthenticationEndpoint)),
      Some(OrDefault(resourceManagerEndpoint, c.defaultResourceManagerEndpoint)),
      Some(OrDefault(graphEndpoint, c.defaultGraphEndpoint)))
  }

  /** The no-argument constructor: the null object returned when a credential
      lookup finds nothing. */
  function EmptyServicePrincipal(c: Constants): (sp: ServicePrincipal)
    ensures sp.SecretsPresent() && sp.IsBlankDefined() && sp.IsBlank()
    ensures sp.SubscriptionId() == sp.ClientId() == sp.ClientSecret() == sp.Tenant() == ""
    ensures sp.ServiceManagementUrl(c) == c.defaultManagementUrl
    ensures sp.AuthenticationEndpoint(c) == c.defaultAuthenticationEndpoint
    ensures sp.ResourceManagerEndpoint(c) == c.defaultResourceManagerEndpoint
    ensures sp.GraphEndpoint(c) == c.defaultGraphEndpoint
  {
    ServicePrincipal(
      Some(""), Some(""), Some(""), Some(""),
      Some(c.defaultManagementUrl), Some(""),
      Some(c.defaultAuthenticationEndpoint),
      Some(c.defaultResourceManagerEndpoint),
      Some(c.defaultGraphEndpoint))
  }

  /** The if-chain of `validate` is the ordered pipeline of its local checks,
      stopped at the first that fails. */
  lemma LocalFailureIsFirstFailure(sp: ServicePrincipal)
    requires sp.ValidateDefined()
    ensures sp.LocalFailure() == FirstFailure(sp.LocalChecks())
  {
    var c0 := sp.LocalChecks();
    var c1, c2, c3, c4 := c0[1..], c0[2..], c0[3..], c0[4..];
    assert c1[1..] == c2 && c2[1..] == c3 && c3[1..] == c4 && c4[1..] == [];
    assert FirstFailure(c4) == if c4[0].fails then Some(c4[0].message) else None;
    assert FirstFailure(c3) == if c3[0].fails then Some(c3[0].message) else FirstFailure(c4);
    assert FirstFailure(c2) == if c2[0].fails then Some(c2[0].message) else FirstFailure(c3);
    assert FirstFailure(c1) == if c1[0].fails then Some(c1[0].message) else FirstFailure(c2);
  }

  /** A blank required secret is reported as missing exactly when `isBlank`
      holds; the malformed-endpoint message only ever follows four present
      secrets. */
  lemma MissingIffBlank(sp: ServicePrincipal)
    requires sp.ValidateDefined() && sp.IsBlankDefined()
    ensures sp.LocalFailure() in {Some(SubscriptionMissing), Some(ClientIdMissing), Some(SecretMissing), Some(EndpointMissing)}
            <==> sp.IsBlank()
    ensures sp.LocalFailure() == Some(EndpointMalformed) <==> !sp.IsBlank() && Blank(sp.Tenant())
  {
    assert EndpointMalformed[|ErrorPrefix|..] != SubscriptionMissing[|ErrorPrefix|..];
    assert EndpointMalformed[|ErrorPrefix|..] != ClientIdMissing[|ErrorPrefix|..];
    assert EndpointMalformed[|ErrorPrefix|..] != SecretMissing[|ErrorPrefix|..];
    assert EndpointMalformed[|ErrorPrefix|..] != EndpointMissing[|ErrorPrefix|..];
  }

  /** A successful `validate` implies `!isBlank()` and a non-blank tenant,
      and the verifier accepted the credential. */
  lemma ValidatedIsComplete(sp: ServicePrincipal, c: Constants, verify: Verifier, rg: string, vms: string, timeout: string)
    requires sp.ValidateDefined()
    requires sp.Validate(c, verify, rg, vms, timeout).Ok?
    ensures sp.SecretsPresent() && sp.IsBlankDefined() && !sp.IsBlank() && !Blank(sp.Tenant())
    ensures EqualsIgnoreCase(c.opSuccess, verify(sp, rg, vms, timeout))
  {
  }

  /** The first check in the fixed order wins: with the subscription ID
      blank, `validate` reports it whatever else is blank and whatever the
      verifier would say. */
  lemma SubscriptionReportedFirst(sp: ServicePrincipal, c: Constants, verify: Verifier, rg: string, vms: string, timeout: string)
    requires sp.subscriptionId.Some? && Blank(sp.SubscriptionId())
    ensures sp.ValidateDefined() && sp.Validate(c, verify, rg, vms, timeout) == Err(SubscriptionMissing)
    ensures sp.IsBlankDefined() && sp.IsBlank()
  {
  }

  /** With the subscription and client IDs both blank, the subscription ID is
      the one reported. */
  lemma BothIdsBlankReportsSubscription(c: Constants, verify: Verifier, endpoint: string)
    ensures NewServicePrincipal(c, Some(""), Some(" "), Some("secret"), endpoint, None, None, None, None)
              .Validate(c, verify, "rg", "10", "1200") == Err(SubscriptionMissing)
  {
    var sp := NewServicePrincipal(c, Some(""), Some(" "), Some("secret"), endpoint, None, None, None, None);
    SubscriptionReportedFirst(sp, c, verify, "rg", "10", "1200");
  }

  /** When the four secrets are present but the tenant is blank, `validate`
      fails as malformed and its result does not depend on the verifier. */
  lemma MalformedSkipsVerifier(sp: ServicePrincipal, c: Constants, v1: Verifier, v2: Verifier, rg: string, vms: string, timeout: string)
    requires sp.IsBlankDefined() && !sp.IsBlank() && Blank(sp.Tenant())
    ensures sp.Validate(c, v1, rg, vms, timeout) == sp.Validate(c, v2, rg, vms, timeout) == Err(EndpointMalformed)
  {
  }

  /** Once the local checks pass, the verdict is the verifier's: success when
      its response equals the success constant ignoring case, and otherwise
      the response itself as the message. */
  lemma VerifierDecides(sp: ServicePrincipal, c: Constants, verify: Verifier, rg: string, vms: string, timeout: string)
    requires sp.IsBlankDefined() && !sp.IsBlank() && !Blank(sp.Tenant())
    ensures var response := verify(sp, rg, vms, timeout);
            sp.Validate(c, verify, rg, vms, timeout)
              == if EqualsIgnoreCase(c.opSuccess, response) then Ok(true) else Err(response)
  {
  }

  /** For a freshly constructed credential the local checks pass exactly
      when the three secrets are non-blank and the token endpoint matches the
      pattern with a non-blank segment after its host. */
  lemma ConstructedPassesLocalChecks(
    c: Constants, subscriptionId: JString, clientId: JString, clientSecret: JString, oauth2TokenEndpoint: string,
    serviceManagementUrl: JString, authenticationEndpoint: JString, resourceManagerEndpoint: JString, graphEndpoint: JString)
    ensures var sp := NewServicePrincipal(c, subscriptionId, clientId, clientSecret, oauth2TokenEndpoint,
                                          serviceManagementUrl, authenticationEndpoint, resourceManagerEndpoint, graphEndpoint);
            sp.LocalFailure().None?
            <==> && !BlankOrNull(subscriptionId) && !BlankOrNull(clientId) && !BlankOrNull(clientSecret)
                 && MatchesEndpointPattern(oauth2TokenEndpoint) && !Blank(SegmentAfterHost(oauth2TokenEndpoint))
  {
    TenantIsSegmentAfterHost(oauth2TokenEndpoint);
    if MatchesEndpointPattern(oauth2TokenEndpoint) {
      assert oauth2TokenEndpoint[0] == 'h';
    }
  }

  /** An endpoint with no path, such as `https://foo`, is reported as
      malformed and the verifier is never asked. */
  lemma NoPathEndpointIsMalformed(c: Constants, verify: Verifier, subscriptionId: string, clientId: string, clientSecret: string)
    requires !Blank(subscriptionId) && !Blank(clientId) && !Blank(clientSecret)
    ensures NewServicePrincipal(c, Some(subscriptionId), Some(clientId), Some(clientSecret), "https://foo", None, None, None, None)
              .Validate(c, verify, "rg", "10", "1200") == Err(EndpointMalformed)
  {
    NoPathNoTenant("https://foo");
    var sp := NewServicePrincipal(c, Some(subscriptionId), Some(clientId), Some(clientSecret), "https://foo", None, None, None, None);
    assert !Blank("https://foo") by {
      assert !IsWhitespace("https://foo"[0]);
    }
    assert !sp.IsBlank();
  }

  /** The null object is blank and fails validation on its subscription ID. */
  lemma EmptyFailsValidation(c: Constants, verify: Verifier, rg: string, vms: string, timeout: string)
    ensures EmptyServicePrincipal(c).Validate(c, verify, rg, vms, timeout) == Err(SubscriptionMissing)
  {
  }

  /** `isBlank` depends only on the four required secrets: neither the
      tenant nor any endpoint URL changes it. */
  lemma IsBlankIgnoresEndpoints(sp: ServicePrincipal, tenant: JString, a: JString, b: JString, d: JString, e: JString)
    requires sp.IsBlankDefined()
    ensures var other := sp.(tenant := tenant, serviceManagementUrl := a, authenticationEndpoint := b,
                             resourceManagerEndpoint := d, graphEndpoint := e);
            other.IsBlankDefined() && other.IsBlank() == sp.IsBlank()
  {
  }

  /** A stored record with a blank subscription ID and no client ID: both
      `isBlank` and `validate` stop at the subscription ID and never read the
      missing field. */
  lemma BlankSubscriptionBeforeNullClient(c: Constants, verify: Verifier, rg: string, vms: string, timeout: string)
    ensures var sp := ServicePrincipal(Some(""), None, None, None, None, None, None, None, None);
            && sp.IsBlankDefined() && sp.IsBlank()
            && sp.ValidateDefined() && sp.Validate(c, verify, rg, vms, timeout) == Err(SubscriptionMissing)
  {
  }

  /** A legacy record without a token endpoint but with a blank client
      secret: `validate` reports the secret before it would read the
      endpoint, while `isBlank` reads the endpoint first and throws. */
  lemma LegacyBlankSecretReportedBeforeEndpoint(c: Constants, verify: Verifier, rg: string, vms: string, timeout: string)
    ensures var sp := ServicePrincipal(Some("s"), Some("c"), Some(""), None, None, None, None, None, None);
            && !sp.IsBlankDefined()
            && sp.ValidateDefined() && sp.Validate(c, verify, rg, vms, timeout) == Err(SecretMissing)
  {
    assert !Blank("s") by { assert !IsWhitespace("s"[0]); }
    assert !Blank("c") by { assert !IsWhitespace("c"[0]); }
  }
}
