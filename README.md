# Azure service-principal credentials

A Dafny model of `AzureCredentials.ServicePrincipal` from the Azure VM Agents
Jenkins plugin. This is the immutable credential record that the plugin keeps
for an Azure service principal. It has four secrets: subscription ID, client
ID, client secret and the legacy OAuth 2.0 token endpoint. It also holds a
tenant and four cloud endpoint URLs.

The model covers:

- **Endpoint defaulting.** The eight-argument constructor replaces a blank
  endpoint URL with its fixed default. The getters replace a `null` field
  with the same default. A `null` field is what a record stored before that
  field existed holds.
- **Tenant extraction.** The tenant is taken from the token endpoint by a
  regex match, a `split("/")` and the field at index 3. The model
  hand-codes the regex `https://[a-zA-Z0-9\.]*/[a-z0-9\-]*/?.*$` twice:
  - as its literal semantics (`TokenEndpoint.RegexMatches`, an existential
    over the positions where each part of the pattern ends);
  - as a direct decision (`TokenEndpoint.MatchesEndpointPattern`).

  A lemma proves the two agree. The segment class `[a-z0-9\-]*` constrains
  nothing: it may match the empty string, and `.*` then takes the rest. So
  upper-case tenants such as `https://h/ABC/x` are accepted. Java's `split`
  drops trailing empty fields. Together with the above, the tenant is
  exactly the text after `https://<host>/` up to the next `/`
  (`TokenEndpoint.TenantIsSegmentAfterHost`).
- **Validation.** `validate` runs a fixed-order chain of local checks and
  stops at the first one that fails. Each local check throws a message
  starting with `Error: `. The last step asks a remote verifier. That
  verifier is a function parameter, `Credentials.Verifier`. An exception is
  modelled as `Err(message)`, and the normal return as `Ok(true)`.

Modules: `Wrappers` (Option, Result), `JavaStrings` (the Java and Commons
Lang string functions the class calls), `TokenEndpoint` (tenant extraction)
and `Credentials` (the record, its constructors, getters, `isBlank` and
`validate`). A Java `null` string is `None` (type `JString`). Secrets are
kept as their plaintext.

The values of the plugin's `Constants` class are not part of this model. That
class holds the four default endpoints and the success response. The model
passes them in as a `Credentials.Constants` value. `Constants.Valid()` states
that the defaults are non-blank.

Two consequences of the code as written:

- The segment class `[a-z0-9\-]*` of the regex does not restrict the
  tenant: any segment after the host is accepted, upper case included.
- The eight-argument constructor always derives the tenant from the token
  endpoint. Only a legacy record with a `null` tenant derives it when it is
  read.

`isBlank` and `validate` read the secret fields without a null check, but
each stops at the first blank field. So a stored record with `null` fields
is handled normally as long as no `null` field is reached before a blank
one. `IsBlankDefined` and `ValidateDefined` state exactly when that is so;
the two functions require them.

## Model

| member | source | states |
|---|---|---|
| `JavaStrings.FixNull` | src/main/java/com/microsoft/azure/util/AzureCredentials.java:120-123 | `Secret.fromString` of `null` holds `""`, and of any other string that string; the result is blank exactly when the input is null or blank |
| `JavaStrings.Blank` | src/main/java/com/microsoft/azure/util/AzureCredentials.java:152-155 | `StringUtils.isBlank` of a non-null string: the empty string is blank, and a string holding any non-whitespace character is not |
| `JavaStrings.BlankOrNull` | src/main/java/com/microsoft/azure/util/AzureCredentials.java:125-136 | `StringUtils.isBlank` of a reference: `null` is blank, and a present string is blank exactly when its text is |
| `JavaStrings.IndexOf` | src/main/java/com/microsoft/azure/util/AzureCredentials.java:188 | the position of the first separator, or the length when there is none: every earlier character differs from it |
| `JavaStrings.Fields` | src/main/java/com/microsoft/azure/util/AzureCredentials.java:188 | the fields between separators, empty ones included: there is always at least one |
| `JavaStrings.FieldsAreSeparatorFree` | src/main/java/com/microsoft/azure/util/AzureCredentials.java:188 | the first field runs up to the first separator, and no field contains the separator |
| `JavaStrings.FieldsStep` | src/main/java/com/microsoft/azure/util/AzureCredentials.java:188 | splitting at the first separator gives the field before it followed by the fields of the rest |
| `JavaStrings.JoinFields` | src/main/java/com/microsoft/azure/util/AzureCredentials.java:188 | joining the fields with the separator gives back the original string (nothing lost by splitting) |
| `JavaStrings.DropTrailingEmpty` | src/main/java/com/microsoft/azure/util/AzureCredentials.java:188 | a prefix of the input that ends in a non-empty field, with only empty fields removed |
| `JavaStrings.Split` | src/main/java/com/microsoft/azure/util/AzureCredentials.java:188 | `split` with limit 0: a prefix of all fields whose removed tail is all empty; the whole string when the separator is absent; otherwise ending in a non-empty field or empty |
| `JavaStrings.EqualsIgnoreCase` | src/main/java/com/microsoft/azure/util/AzureCredentials.java:176 | equal strings compare equal; two strings compare equal ignoring case iff they have the same length and agree position by position once ASCII letters are upper-cased |
| `JavaStrings.EqualsIgnoreCaseIsEquivalence` | src/main/java/com/microsoft/azure/util/AzureCredentials.java:176 | comparing to the success response ignoring case is reflexive, symmetric and transitive, and strings of different lengths never match |
| `TokenEndpoint.RegexMatches` | src/main/java/com/microsoft/azure/util/AzureCredentials.java:185 | the whole-string match in its literal meaning, over where the host, segment and optional `/` end; any match starts with `https://`, is longer than it and has no line terminator after it |
| `TokenEndpoint.MatchesEndpointPattern` | src/main/java/com/microsoft/azure/util/AzureCredentials.java:185 | the same match decided directly: `https://`, host characters up to the first `/`, that `/`, and no line terminator after it; a match starts with the scheme and is longer than it |
| `TokenEndpoint.HostEnd` | src/main/java/com/microsoft/azure/util/AzureCredentials.java:185 | the host ends at the first `/` after `https://`, or at the end of the string |
| `TokenEndpoint.MatchesEndpointPatternIsRegex` | src/main/java/com/microsoft/azure/util/AzureCredentials.java:185 | the whole-string match succeeds iff the input starts with `https://`, the host is in `[A-Za-z0-9.]`, a `/` follows it and no line terminator comes after that `/` (both directions) |
| `TokenEndpoint.SegmentAfterHost` | src/main/java/com/microsoft/azure/util/AzureCredentials.java:188-193 | the text after `https://<host>/` up to the next `/` or the end: a prefix of the rest, without `/`, followed by `/` or nothing |
| `TokenEndpoint.TenantFromTokenEndpoint` | src/main/java/com/microsoft/azure/util/AzureCredentials.java:183-195 | a non-empty tenant only comes from a matching endpoint and never contains `/` |
| `TokenEndpoint.SchemeShape` | src/main/java/com/microsoft/azure/util/AzureCredentials.java:185 | a string starting with `https://` has `https:` before its first `/`, and a second `/` right after it |
| `TokenEndpoint.FieldsAfterScheme` | src/main/java/com/microsoft/azure/util/AzureCredentials.java:188 | a string whose first `/` is at index 6 and is doubled splits into its first six characters, an empty field, then the fields after the slashes |
| `TokenEndpoint.FieldsOfEndpoint` | src/main/java/com/microsoft/azure/util/AzureCredentials.java:188 | a matching endpoint splits into `https:`, an empty field, the host, then the fields after the host's `/` |
| `TokenEndpoint.TenantIsSegmentAfterHost` | src/main/java/com/microsoft/azure/util/AzureCredentials.java:185-193 | the tenant is the segment after the host when the pattern matches, `""` otherwise; index 3 and the dropped trailing empty fields agree with that |
| `TokenEndpoint.TenantOfComposedEndpoint` | src/main/java/com/microsoft/azure/util/AzureCredentials.java:183-195 | `https://` + host + `/` + segment + (empty or `/`-led tail), without line terminators, yields exactly that segment |
| `TokenEndpoint.NoPathNoTenant` | src/main/java/com/microsoft/azure/util/AzureCredentials.java:185-186 | a `https://` string with no `/` after the host yields `""` |
| `TokenEndpoint.ExampleLoginUrl` | src/main/java/com/microsoft/azure/util/AzureCredentials.java:183-195 | `https://login.microsoftonline.com/abc-123/oauth2/token` yields `abc-123` |
| `TokenEndpoint.ExampleUpperCaseTenant` | src/main/java/com/microsoft/azure/util/AzureCredentials.java:185-193 | `https://h/ABC/x` yields `ABC` |
| `TokenEndpoint.ExampleNoPath` | src/main/java/com/microsoft/azure/util/AzureCredentials.java:185-186 | `https://login.microsoftonline.com` yields `""` |
| `TokenEndpoint.ExamplesEmptySegment` | src/main/java/com/microsoft/azure/util/AzureCredentials.java:188-193 | `https://h/` and `https://h//x` both yield `""` |
| `TokenEndpoint.ExampleHttpScheme` | src/main/java/com/microsoft/azure/util/AzureCredentials.java:185-186 | `http://h/t` yields `""` |
| `TokenEndpoint.ExampleBadHostChar` | src/main/java/com/microsoft/azure/util/AzureCredentials.java:185-186 | `https://my_host/t` yields `""` |
| `Credentials.FirstFailure` | src/main/java/com/microsoft/azure/util/AzureCredentials.java:158-173 | the reference pipeline: `None` iff no check fails, otherwise the message of a failing check with every earlier check passing |
| `Credentials.ServicePrincipal.SubscriptionId` | src/main/java/com/microsoft/azure/util/AzureCredentials.java:59-61 | the plaintext of a present secret, `""` for a null one; blank exactly when the field is null or blank |
| `Credentials.ServicePrincipal.ClientId` | src/main/java/com/microsoft/azure/util/AzureCredentials.java:63-65 | the plaintext of a present secret, `""` for a null one; blank exactly when the field is null or blank |
| `Credentials.ServicePrincipal.ClientSecret` | src/main/java/com/microsoft/azure/util/AzureCredentials.java:67-69 | the plaintext of a present secret, `""` for a null one; blank exactly when the field is null or blank |
| `Credentials.ServicePrincipal.Tenant` | src/main/java/com/microsoft/azure/util/AzureCredentials.java:71-77 | the stored tenant; for a legacy null tenant, the tenant derived from the endpoint, or from `""` when the endpoint is null too |
| `Credentials.ServicePrincipal.ServiceManagementUrl` | src/main/java/com/microsoft/azure/util/AzureCredentials.java:79-85 | the stored URL as it is, the default for a null field; never blank on a well-formed record with valid defaults |
| `Credentials.ServicePrincipal.AuthenticationEndpoint` | src/main/java/com/microsoft/azure/util/AzureCredentials.java:87-93 | the stored URL as it is, the default for a null field; never blank on a well-formed record with valid defaults |
| `Credentials.ServicePrincipal.ResourceManagerEndpoint` | src/main/java/com/microsoft/azure/util/AzureCredentials.java:95-101 | the stored URL as it is, the default for a null field; never blank on a well-formed record with valid defaults |
| `Credentials.ServicePrincipal.GraphEndpoint` | src/main/java/com/microsoft/azure/util/AzureCredentials.java:103-109 | the stored URL as it is, the default for a null field; never blank on a well-formed record with valid defaults |
| `Credentials.ServicePrincipal.IsBlankDefined` | src/main/java/com/microsoft/azure/util/AzureCredentials.java:151-156 | `isBlank` returns without a `NullPointerException`: present secrets always suffice, a null subscription ID never does, a present blank one always does, and once the subscription ID, client ID and endpoint are non-blank it holds iff the secret is present |
| `Credentials.ServicePrincipal.ValidateDefined` | src/main/java/com/microsoft/azure/util/AzureCredentials.java:158-168 | `validate` reaches no null field: present secrets always suffice, a null subscription ID never does, a present blank one always does, and once the subscription ID, client ID and secret are non-blank it holds iff the endpoint is present |
| `Credentials.ServicePrincipal.IsBlank` | src/main/java/com/microsoft/azure/util/AzureCredentials.java:151-156 | on every record where no `null` field is reached: true iff the subscription ID, client ID, client secret or token endpoint is null or blank |
| `Credentials.ServicePrincipal.LocalChecks` | src/main/java/com/microsoft/azure/util/AzureCredentials.java:159-173 | the five local checks in order, on any record, each message starting with `Error: ` |
| `Credentials.ServicePrincipal.LocalFailure` | src/main/java/com/microsoft/azure/util/AzureCredentials.java:158-173 | on every record where no `null` field is reached: no local failure iff the four secrets are present and non-blank and the tenant is not blank; any failure message starts with `Error: ` |
| `Credentials.ServicePrincipal.Validate` | src/main/java/com/microsoft/azure/util/AzureCredentials.java:158-181 | on every record where no `null` field is reached: success is always `true` and happens iff the local checks pass and the verifier's response equals the success constant ignoring case; otherwise the message is the local failure, or else the response verbatim |
| `Credentials.OrDefault` | src/main/java/com/microsoft/azure/util/AzureCredentials.java:125-136 | a blank or null input becomes the default; any other input is kept as it is |
| `Credentials.NewServicePrincipal` | src/main/java/com/microsoft/azure/util/AzureCredentials.java:111-137 | secrets read back as given (`""` for null); the tenant is the one derived from the endpoint; each endpoint getter returns the input when non-blank, else its default; with valid defaults the record is well-formed |
| `Credentials.EmptyServicePrincipal` | src/main/java/com/microsoft/azure/util/AzureCredentials.java:139-149 | the null object is blank, with empty secrets and tenant, and every endpoint getter returns its default |
| `Credentials.LocalFailureIsFirstFailure` | src/main/java/com/microsoft/azure/util/AzureCredentials.java:158-173 | the if-chain of `validate` equals the ordered pipeline of its checks stopped at the first failure |
| `Credentials.MissingIffBlank` | src/main/java/com/microsoft/azure/util/AzureCredentials.java:151-173 | a "missing" message is reported iff `isBlank()`; "malformed" iff not blank and the tenant is blank |
| `Credentials.ValidatedIsComplete` | src/main/java/com/microsoft/azure/util/AzureCredentials.java:158-181 | a successful `validate` implies that the four secrets are present, `isBlank()` returns false, a non-blank tenant and a success response from the verifier |
| `Credentials.SubscriptionReportedFirst` | src/main/java/com/microsoft/azure/util/AzureCredentials.java:159-161 | a present but blank subscription ID is reported whatever the other fields hold, `null` included, and whatever the verifier says; `isBlank()` then returns true |
| `Credentials.BothIdsBlankReportsSubscription` | src/main/java/com/microsoft/azure/util/AzureCredentials.java:159-164 | with subscription and client IDs both blank, the message is `Error: Subscription ID is missing` |
| `Credentials.MalformedSkipsVerifier` | src/main/java/com/microsoft/azure/util/AzureCredentials.java:171-175 | four present secrets with a blank tenant give `Error: OAuth 2.0 Token Endpoint is malformed` for every verifier |
| `Credentials.VerifierDecides` | src/main/java/com/microsoft/azure/util/AzureCredentials.java:175-180 | once the local checks pass, the result is `true` iff the response equals the success constant ignoring case, and otherwise the response is the message |
| `Credentials.ConstructedPassesLocalChecks` | src/main/java/com/microsoft/azure/util/AzureCredentials.java:120-173 | a constructed record passes the local checks iff its three secrets are non-blank and its endpoint matches with a non-blank segment after the host |
| `Credentials.NoPathEndpointIsMalformed` | src/main/java/com/microsoft/azure/util/AzureCredentials.java:168-175 | with endpoint `https://foo` and the other secrets present, `validate` reports the endpoint as malformed |
| `Credentials.EmptyFailsValidation` | src/main/java/com/microsoft/azure/util/AzureCredentials.java:139-161 | the null object fails `validate` with `Error: Subscription ID is missing` |
| `Credentials.IsBlankIgnoresEndpoints` | src/main/java/com/microsoft/azure/util/AzureCredentials.java:151-156 | changing the tenant or any endpoint URL does not change `isBlank()` |
| `Credentials.BlankSubscriptionBeforeNullClient` | src/main/java/com/microsoft/azure/util/AzureCredentials.java:151-161 | a record with a blank subscription ID and a `null` client ID is blank, and `validate` reports the subscription ID |
| `Credentials.LegacyBlankSecretReportedBeforeEndpoint` | src/main/java/com/microsoft/azure/util/AzureCredentials.java:151-167 | with a blank secret and a `null` token endpoint, `validate` reports the secret, while `isBlank` would reach the `null` endpoint |

## Left out

- Secret encryption: `hudson.util.Secret` is modelled as its plaintext. `getEncryptedValue` and the outer class's encrypted getters (lines 228-242) are not modelled. Nor is `Secret.fromString` decrypting an input that already looks encrypted.
- The remote verification (`AzureVMManagementServiceDelegate.verifyConfiguration`, line 175) is a network call. It is the function parameter `Verifier`. A `null` response is not modelled: the verifier always returns a string.
- The credential registry lookup `getServicePrincipal` (lines 218-226) is Jenkins plumbing. When the lookup finds nothing it returns the no-argument object, `EmptyServicePrincipal`.
- The outer `AzureCredentials` constructor (lines 201-216) only forwards to the eight-argument `ServicePrincipal` constructor. Its secret getters (lines 228-242) return encrypted values. Its endpoint getters (lines 244-258) return the raw fields without the default, so on a legacy record they return `null`. `DescriptorImpl` and `doVerifyConfiguration` (lines 260-306) are form-validation glue. None of them is modelled.
- The logger and Java serialisation are not modelled.
- The values of `Constants.*` are not part of this model. They are a `Constants` parameter.
- JavaStrings.EqualsIgnoreCase: folds case only for ASCII letters. Java's `equalsIgnoreCase` also folds other Unicode letters.
- JavaStrings.IsWhitespace: follows `Character.isWhitespace` for Unicode 6.3 and later. So U+180E is not whitespace, as in Java 9 and later.
- Java strings are UTF-16, but the model's strings are sequences of Unicode scalar values. No character the code tests for is a surrogate, so the split and the checks are unaffected.
- Credentials.NewServicePrincipal: a `null` token endpoint makes the constructor throw a `NullPointerException` (line 124 calling line 185). The model takes the endpoint as a non-null string.
- Credentials.ServicePrincipal.IsBlank: when `isBlank` reaches a `null` field before a blank one (lines 152-155), it throws a `NullPointerException`. That outcome is not modelled: the function requires `IsBlankDefined()`.
- Credentials.ServicePrincipal.Validate: likewise when `validate` reaches a `null` field before a blank one (lines 159-168). The function requires `ValidateDefined()`.
- The exception type `AzureCredentialsValidationException` is not modelled; an exception is only its message.
