# Apache James: mailet context routing and the SanitizeHtmlBodyParts mailet

This project models two parts of Apache James's mail processing in Dafny and
proves what they promise.

**The mailet routing context (`JamesMailetContext`)** answers whether a domain,
a user or an address is served locally. It filters a recipient list down to the
local addresses. It hands mails to the spool queue through `bounce` and the
`sendMail` overloads. The implementation is not part of this model; its
behaviour is taken from the assertions of `JamesMailetContextTest.java`.
- The domain list, the users repository and the recipient rewrite table are one
  value, `Registries`: a set of domains, a default domain, a set of user
  addresses and a resolution function.
- `failing` names the collaborator calls that throw, as the tests arrange with
  their stubs. A throwing call makes the query fail with that call's
  `Failure`; it never makes the query answer `false`.
- The locality queries are functions (`MailetContext.IsLocalServer`,
  `IsLocalUser`, `IsLocalEmail`, `LocalRecipients`).
- The spool queue is the log `spool` of a `JamesMailetContext` object. The
  `sendMail` overloads and `bounce` are methods that set the mail's state and
  append to that log.

**The `SanitizeHtmlBodyParts` mailet** (`SanitizeHtmlBodyParts.java`) has two
operations.
- `init` reads its configuration:
  - the `level` parameter, upper-cased and looked up among the five
    sanitizer levels;
  - then the additions `tags`, `attributes`, `enforcedAttributes` and
    `protocols`;
  - then the removals `removeTags`, `removeAttributes`,
    `removeEnforcedAttributes` and `removeProtocols`.

  Each list parameter is split on `,`, stripped, and its blank values
  dropped. Each value is split on `:` and checked for the number of fields it
  needs; an entry with too few fields fails `init` with that parameter's
  message. The call the entry asks for is then made on the whitelist. The
  whitelist library refuses a call that adds or removes attributes without
  naming any (`NoAttributeNames`), and that refusal fails `init` too. The
  calls made before a failing entry stay applied.
- The whitelist is an object (`SanitizeHtmlBodyParts.Whitelist`): the
  predefined level it was made from and the log of the calls made on it
  since. Each constant of the `SanitizerLevel` enum holds one such object,
  made once (`SanitizeHtmlBodyParts.SanitizerLevels`); every instance of the
  mailet is given the same `SanitizerLevels`, as every instance in a JVM
  sees the same enum. `init` takes the configured level's object itself, not
  a copy, and makes its calls on it in place. Without a `level` parameter it
  makes a new whitelist of level NONE.
- `SanitizerConfig.InitResult` is what `init` leaves when it starts from a
  whitelist of its own: the level and every call made, or the failure.
- `SanitizerConfig.Parsing` names two readings of the entries. `AsWritten`
  is the mailet's code, and the mailet's `Init` uses it. `Corrected` is the
  reading described under "## Findings", and `InitWithOwnWhitelist` uses
  it. The two differ only on `attributes`, `enforcedAttributes` and
  `removeAttributes`.
- `service` walks the MIME tree of the mail. Every `text/html` part it reaches
  through `multipart/*` parts, at any depth, has its text replaced by the
  cleaner's output. Every other part is left as it is. The cleaner
  (`Jsoup.clean`) is a parameter of the mailet object.

Modules:
- `Wrappers`: `Option`, `Result`, `Outcome`.
- `JavaStrings`: `String.split` with Java's removal of trailing empty
  strings, `strip`, `isBlank`, `toUpperCase`, `equalsIgnoreCase`.
- `Mailet`: addresses, the MIME part tree, the `Mail` class.
- `MailetContext`: the routing context.
- `SanitizerConfig`: parsing of the mailet's configuration, and the
  specification of `init`.
- `SanitizeHtmlBodyParts`: the specification of the tree walk, the whitelist
  objects and the level constants, and the mailet class.

Paths below are relative to the repository root. Three abbreviations are used
in the prose: C is
`server/mailet/mailetcontainer-camel/src/test/java/org/apache/james/mailetcontainer/impl/JamesMailetContextTest.java`,
M is `mailet/standard/src/main/java/org/apache/james/transport/mailets/SanitizeHtmlBodyParts.java`,
and T is `mailet/standard/src/test/java/org/apache/james/transport/mailets/SanitizeHtmlBodyPartsTest.java`.

## Model

| member | source | states |
|---|---|---|
| MailetContext.IsLocalServer | server/mailet/mailetcontainer-camel/src/test/java/org/apache/james/mailetcontainer/impl/JamesMailetContextTest.java:104-115 | `isLocalServer` fails exactly when the domain list fails, and then with that failure; otherwise a domain is local if and only if the domain list holds it |
| MailetContext.IsLocalEmail | server/mailet/mailetcontainer-camel/src/test/java/org/apache/james/mailetcontainer/impl/JamesMailetContextTest.java:194-212 | a missing address is not local; an answer is `true` exactly when the domain is served and the address resolves to an existing user; the query fails exactly when the domain list fails, or the domain is served and the rewrite table or the users repository fails, and a failure names a collaborator that fails |
| MailetContext.IsLocalUser | server/mailet/mailetcontainer-camel/src/test/java/org/apache/james/mailetcontainer/impl/JamesMailetContextTest.java:117-191 | a missing name is not local; a name found local is a full address, or a bare name completed with the default domain, whose domain is served and which resolves to an existing user; a failure names a collaborator that fails |
| MailetContext.NothingIsNeverLocal | server/mailet/mailetcontainer-camel/src/test/java/org/apache/james/mailetcontainer/impl/JamesMailetContextTest.java:99-102 | `isLocalUser(null)` and `isLocalEmail(null)` are false, even when every collaborator would fail (also C:245-248) |
| MailetContext.LocalServerAfterAddDomain | server/mailet/mailetcontainer-camel/src/test/java/org/apache/james/mailetcontainer/impl/JamesMailetContextTest.java:104-156 | a domain is not local before it is added to the domain list, and is local after |
| MailetContext.LocalServerFailure | server/mailet/mailetcontainer-camel/src/test/java/org/apache/james/mailetcontainer/impl/JamesMailetContextTest.java:109-115 | `isLocalServer` fails exactly when the domain list fails, and then with that failure |
| MailetContext.LocalUserFailure | server/mailet/mailetcontainer-camel/src/test/java/org/apache/james/mailetcontainer/impl/JamesMailetContextTest.java:117-123 | a bare name fails when the default domain cannot be read; otherwise it is judged exactly as `isLocalEmail` of the name at the default domain |
| MailetContext.LocalUserFullAddress | server/mailet/mailetcontainer-camel/src/test/java/org/apache/james/mailetcontainer/impl/JamesMailetContextTest.java:158-192 | a name holding `@` fails or answers exactly as `isLocalEmail` of the address it parses to, and a name that parses to no address is not local |
| MailetContext.BareUserFailure | server/mailet/mailetcontainer-camel/src/test/java/org/apache/james/mailetcontainer/impl/JamesMailetContextTest.java:117-149 | for a bare name, a failing default domain, rewrite table or users repository makes `isLocalUser` fail, naming the first failing call |
| MailetContext.FailuresAreNeverAnswers | server/mailet/mailetcontainer-camel/src/test/java/org/apache/james/mailetcontainer/impl/JamesMailetContextTest.java:109-149 | every answer a query gives is the answer it would give with every collaborator healthy, so a failure never becomes `false` |
| MailetContext.ParseAddressOf | server/mailet/mailetcontainer-camel/src/test/java/org/apache/james/mailetcontainer/impl/JamesMailetContextTest.java:158-164 | `user@domain` is read as local part `user` at domain `domain` |
| MailetContext.DefaultDomainCompletion | server/mailet/mailetcontainer-camel/src/test/java/org/apache/james/mailetcontainer/impl/JamesMailetContextTest.java:166-187 | `user@domain` of an existing user at a served domain is local; the bare `user` is local exactly when the user exists at the default domain, so it is local when that is `domain` and not local when the default is another domain |
| MailetContext.LocalEmailIffDomainAndUser | server/mailet/mailetcontainer-camel/src/test/java/org/apache/james/mailetcontainer/impl/JamesMailetContextTest.java:194-212 | with healthy collaborators an address is local if and only if its domain is served and the address it resolves to is a user |
| MailetContext.LocalEmailFailure | server/mailet/mailetcontainer-camel/src/test/java/org/apache/james/mailetcontainer/impl/JamesMailetContextTest.java:250-282 | `isLocalEmail` fails if and only if the domain check fails, or the domain is served and the rewrite table or the users repository fails; it names the first failing call |
| MailetContext.LocalRecipients | server/mailet/mailetcontainer-camel/src/test/java/org/apache/james/mailetcontainer/impl/JamesMailetContextTest.java:214-243 | an address is in the result if and only if it is in the input and local; the call fails if and only if some address's query fails |
| MailetContext.LocalRecipientsAppend | server/mailet/mailetcontainer-camel/src/test/java/org/apache/james/mailetcontainer/impl/JamesMailetContextTest.java:214-231 | the filter keeps input order: the local recipients of `xs + ys` are those of `xs` followed by those of `ys` |
| MailetContext.LocalRecipientsDropsNonLocal | server/mailet/mailetcontainer-camel/src/test/java/org/apache/james/mailetcontainer/impl/JamesMailetContextTest.java:222-231 | a local and a non-local address give the local one alone |
| MailetContext.LocalRecipientsIgnoreUnusedFailures | server/mailet/mailetcontainer-camel/src/test/java/org/apache/james/mailetcontainer/impl/JamesMailetContextTest.java:214-243 | a `localRecipients` that answers gives the answer of healthy collaborators |
| MailetContext.JamesMailetContext.Dispatch | server/mailet/mailetcontainer-camel/src/test/java/org/apache/james/mailetcontainer/impl/JamesMailetContextTest.java:375-420 | sets the mail's state and appends exactly one enqueue call carrying that state and the delay unchanged |
| MailetContext.JamesMailetContext.SendMail | server/mailet/mailetcontainer-camel/src/test/java/org/apache/james/mailetcontainer/impl/JamesMailetContextTest.java:340-355 | one immediate enqueue in the mail's own state, or `DEFAULT` when it has none (also C:478-521) |
| MailetContext.JamesMailetContext.SendMailInState | server/mailet/mailetcontainer-camel/src/test/java/org/apache/james/mailetcontainer/impl/JamesMailetContextTest.java:357-373 | one immediate enqueue in the given state |
| MailetContext.JamesMailetContext.SendMailDelayed | server/mailet/mailetcontainer-camel/src/test/java/org/apache/james/mailetcontainer/impl/JamesMailetContextTest.java:375-396 | one delayed enqueue in the mail's own state, with the amount and unit unchanged |
| MailetContext.JamesMailetContext.SendMailInStateDelayed | server/mailet/mailetcontainer-camel/src/test/java/org/apache/james/mailetcontainer/impl/JamesMailetContextTest.java:398-420 | one delayed enqueue in the given state, with the amount and unit unchanged |
| MailetContext.JamesMailetContext.SendMessage | server/mailet/mailetcontainer-camel/src/test/java/org/apache/james/mailetcontainer/impl/JamesMailetContextTest.java:422-437 | a new mail whose sender is the message's From address and whose recipients are the message's; one immediate enqueue in state `DEFAULT` |
| MailetContext.JamesMailetContext.SendEnvelope | server/mailet/mailetcontainer-camel/src/test/java/org/apache/james/mailetcontainer/impl/JamesMailetContextTest.java:439-456 | a new mail with the given envelope; one immediate enqueue in state `DEFAULT` |
| MailetContext.JamesMailetContext.SendEnvelopeInState | server/mailet/mailetcontainer-camel/src/test/java/org/apache/james/mailetcontainer/impl/JamesMailetContextTest.java:458-476 | a new mail with the given envelope; one immediate enqueue in the given state |
| MailetContext.JamesMailetContext.Bounce | server/mailet/mailetcontainer-camel/src/test/java/org/apache/james/mailetcontainer/impl/JamesMailetContextTest.java:295-338 | no queue call at all for a mail without a sender or with the null sender; otherwise exactly one immediate enqueue, in state `DEFAULT`, of a new mail from the null sender to the original sender |
| JavaStrings.JavaSplit | mailet/standard/src/main/java/org/apache/james/transport/mailets/SanitizeHtmlBodyParts.java:166-168 | no piece of Java's split holds the separator, and a string without the separator is its own only piece |
| JavaStrings.Strip | mailet/standard/src/main/java/org/apache/james/transport/mailets/SanitizeHtmlBodyParts.java:171 | `strip` never lengthens a string, and what it leaves is empty or starts and ends with a non-white character |
| JavaStrings.UpperCase | mailet/standard/src/main/java/org/apache/james/transport/mailets/SanitizeHtmlBodyParts.java:84 | `toUpperCase` keeps the length and upper-cases each character on its own |
| JavaStrings.JavaSplitPieces | mailet/standard/src/main/java/org/apache/james/transport/mailets/SanitizeHtmlBodyParts.java:96-98 | Java's split gives separator-free pieces, a prefix of all the pieces between separators |
| JavaStrings.JavaSplitJoin | mailet/standard/src/main/java/org/apache/james/transport/mailets/SanitizeHtmlBodyParts.java:96-98 | non-empty, separator-free fields joined with the separator split back into those fields |
| JavaStrings.JavaSplitEmptyIffOnlySeparators | mailet/standard/src/main/java/org/apache/james/transport/mailets/SanitizeHtmlBodyParts.java:127-134 | Java's split gives no piece at all if and only if the string is non-empty and made of separators only |
| JavaStrings.DropTrailingEmptyShape | mailet/standard/src/main/java/org/apache/james/transport/mailets/SanitizeHtmlBodyParts.java:166-173 | Java's split drops a run of trailing empty pieces and nothing else |
| JavaStrings.SplitAllPiecesFree | mailet/standard/src/main/java/org/apache/james/transport/mailets/SanitizeHtmlBodyParts.java:166-173 | no piece of a split holds the separator |
| JavaStrings.JoinSplitAll | mailet/standard/src/main/java/org/apache/james/transport/mailets/SanitizeHtmlBodyParts.java:166-173 | joining the pieces of a split gives the string back |
| JavaStrings.SplitAllJoin | mailet/standard/src/main/java/org/apache/james/transport/mailets/SanitizeHtmlBodyParts.java:166-173 | splitting joined separator-free pieces gives the pieces back |
| JavaStrings.SplitAllAppend | mailet/standard/src/main/java/org/apache/james/transport/mailets/SanitizeHtmlBodyParts.java:166-173 | splitting `a`, a separator and `b` splits `a` and `b` on their own |
| JavaStrings.TrimLeadingShape | mailet/standard/src/main/java/org/apache/james/transport/mailets/SanitizeHtmlBodyParts.java:171 | the leading trim keeps a suffix, drops white space only, and stops at a non-white character |
| JavaStrings.TrimTrailingShape | mailet/standard/src/main/java/org/apache/james/transport/mailets/SanitizeHtmlBodyParts.java:171 | the trailing trim keeps a prefix, drops white space only, and stops at a non-white character |
| JavaStrings.StripEmptyIffBlank | mailet/standard/src/main/java/org/apache/james/transport/mailets/SanitizeHtmlBodyParts.java:171-172 | a stripped value is empty if and only if the value was blank |
| JavaStrings.StripIdempotent | mailet/standard/src/main/java/org/apache/james/transport/mailets/SanitizeHtmlBodyParts.java:171 | stripping twice strips nothing more |
| SanitizerConfig.InitParameter | mailet/standard/src/main/java/org/apache/james/transport/mailets/SanitizeHtmlBodyParts.java:83 | a parameter has a value exactly when it is present and not empty, and that value is the configured text |
| SanitizerConfig.LevelOf | mailet/standard/src/main/java/org/apache/james/transport/mailets/SanitizeHtmlBodyParts.java:83-86 | without `level`, or with an empty one, init starts from NONE; with it, the level found is the one named by the upper-cased value, and an unknown name fails with `UnknownLevel` of the upper-cased value |
| SanitizerConfig.ValueOf | mailet/standard/src/main/java/org/apache/james/transport/mailets/SanitizeHtmlBodyParts.java:59-76 | the level found has exactly the name asked for; any other name fails with `UnknownLevel` of that name |
| SanitizerConfig.LevelNameRoundTrip | mailet/standard/src/main/java/org/apache/james/transport/mailets/SanitizeHtmlBodyParts.java:59-65 | every level is found under its own name |
| SanitizerConfig.LevelOfAnyCase | mailet/standard/src/main/java/org/apache/james/transport/mailets/SanitizeHtmlBodyParts.java:83-86 | a `level` whose upper case is a level's name selects that level |
| SanitizerConfig.LevelAbsent | mailet/standard/src/main/java/org/apache/james/transport/mailets/SanitizeHtmlBodyParts.java:83-87 | without `level`, or with an empty one, init starts from NONE |
| SanitizerConfig.LevelExamples | mailet/standard/src/test/java/org/apache/james/transport/mailets/SanitizeHtmlBodyPartsTest.java:47-72 | `relaxed` selects RELAXED; `abcderfg` fails as the unknown level `ABCDERFG`; an empty level selects NONE |
| SanitizerConfig.KeyNamesDistinct | mailet/standard/src/main/java/org/apache/james/transport/mailets/SanitizeHtmlBodyParts.java:94-145 | the nine init parameters have pairwise distinct names, so keying the configuration by parameter loses nothing |
| SanitizerConfig.GetValues | mailet/standard/src/main/java/org/apache/james/transport/mailets/SanitizeHtmlBodyParts.java:166-173 | an absent list parameter has no values, and a present one has the values of its text; every value is non-empty, stripped and free of commas |
| SanitizerConfig.Values | mailet/standard/src/main/java/org/apache/james/transport/mailets/SanitizeHtmlBodyParts.java:166-173 | a list never has more values than Java's split gives pieces |
| SanitizerConfig.ValuesSplitAt | mailet/standard/src/main/java/org/apache/james/transport/mailets/SanitizeHtmlBodyParts.java:166-173 | the values of a list cut at one of its commas are the values before it followed by the values after it |
| SanitizerConfig.ValuesOfAllPieces | mailet/standard/src/main/java/org/apache/james/transport/mailets/SanitizeHtmlBodyParts.java:166-173 | the trailing empty pieces Java's split drops would be dropped as blank anyway |
| SanitizerConfig.CleanedAppend | mailet/standard/src/main/java/org/apache/james/transport/mailets/SanitizeHtmlBodyParts.java:171-172 | stripping and filtering a concatenation does each half on its own |
| SanitizerConfig.ValuesAppend | mailet/standard/src/main/java/org/apache/james/transport/mailets/SanitizeHtmlBodyParts.java:166-173 | the values of `a,b` are the values of `a` followed by those of `b` |
| SanitizerConfig.ValuesTrailingComma | mailet/standard/src/test/java/org/apache/james/transport/mailets/SanitizeHtmlBodyPartsTest.java:109-119 | a trailing comma adds no value |
| SanitizerConfig.ValuesOfOne | mailet/standard/src/main/java/org/apache/james/transport/mailets/SanitizeHtmlBodyParts.java:166-173 | a list without commas is its stripped self, or nothing when blank |
| SanitizerConfig.ValuesShape | mailet/standard/src/main/java/org/apache/james/transport/mailets/SanitizeHtmlBodyParts.java:166-173 | every value is non-empty, already stripped, and free of commas |
| SanitizerConfig.StripKeepsOut | mailet/standard/src/main/java/org/apache/james/transport/mailets/SanitizeHtmlBodyParts.java:171 | stripping adds no character |
| SanitizerConfig.EntryCall | mailet/standard/src/main/java/org/apache/james/transport/mailets/SanitizeHtmlBodyParts.java:94-164 | the call the mailet asks for is of the parameter's kind, addition or removal; its own check fails only a parameter it checks, with `InvalidProperty` of that parameter |
| SanitizerConfig.ProtocolsEntry | mailet/standard/src/main/java/org/apache/james/transport/mailets/SanitizeHtmlBodyParts.java:107-114 | a `protocols` value adds protocols for a tag and an attribute without colons; too few fields fail with PROTOCOLS_PROPERTY_INVALID |
| SanitizerConfig.RemoveProtocolsEntry | mailet/standard/src/main/java/org/apache/james/transport/mailets/SanitizeHtmlBodyParts.java:147-155 | a `removeProtocols` value removes protocols of a tag and an attribute without colons; too few fields fail with REMOVE_PROTOCOLS_PROPERTY_INVALID |
| SanitizerConfig.RemoveEnforcedAttributesEntry | mailet/standard/src/main/java/org/apache/james/transport/mailets/SanitizeHtmlBodyParts.java:157-164 | a `removeEnforcedAttributes` value removes the enforced attribute of a tag and an attribute without colons; too few fields fail with REMOVE_ENFORCED_ATTRIBUTES_PROPERTY_INVALID |
| SanitizerConfig.EnforcedAttributesEntryAsWritten | mailet/standard/src/main/java/org/apache/james/transport/mailets/SanitizeHtmlBodyParts.java:116-125 | as written, an enforced value never holds a colon; too few fields fail with ENFORCED_ATTRIBUTES_PROPERTY_INVALID |
| SanitizerConfig.AttributesEntryAsWritten | mailet/standard/src/main/java/org/apache/james/transport/mailets/SanitizeHtmlBodyParts.java:127-134 | as written, an `attributes` value adds attributes of a tag without colons; the mailet's own failure is ATTRIBUTES_PROPERTY_INVALID |
| SanitizerConfig.RemoveAttributesEntryAsWritten | mailet/standard/src/main/java/org/apache/james/transport/mailets/SanitizeHtmlBodyParts.java:138 | as written, a `removeAttributes` value is always a removal whose tag is the whole value, with no attribute names, which the library refuses with `NoAttributeNames` of that value |
| SanitizerConfig.ParseEntry | mailet/standard/src/main/java/org/apache/james/transport/mailets/SanitizeHtmlBodyParts.java:94-164 | what one value does: an addition parameter gives an addition and a removal parameter a removal; an attribute call that is made names at least one attribute; a failure is `InvalidProperty` of that parameter (never for tags), or, as written only, the library's `NoAttributeNames` for `attributes` and `removeAttributes` |
| SanitizerConfig.ParsingsAgree | mailet/standard/src/main/java/org/apache/james/transport/mailets/SanitizeHtmlBodyParts.java:94-164 | the two parsings agree on every list but `attributes`, `enforcedAttributes` and `removeAttributes` |
| SanitizerConfig.FieldsRoundTrip | mailet/standard/src/main/java/org/apache/james/transport/mailets/SanitizeHtmlBodyParts.java:96-98 | colon-joined fields split back into those fields |
| SanitizerConfig.ProtocolsEntryRoundTrip | mailet/standard/src/main/java/org/apache/james/transport/mailets/SanitizeHtmlBodyParts.java:107-114 | `tag:attribute:protocol...` adds, and under `removeProtocols` removes, exactly that tag, attribute and protocols |
| SanitizerConfig.ProtocolsEntryTagAlone | mailet/standard/src/main/java/org/apache/james/transport/mailets/SanitizeHtmlBodyParts.java:147-155 | a tag alone fails `protocols` with PROTOCOLS_PROPERTY_INVALID and `removeProtocols` with REMOVE_PROTOCOLS_PROPERTY_INVALID |
| SanitizerConfig.RemoveEnforcedAttributesEntryFields | mailet/standard/src/main/java/org/apache/james/transport/mailets/SanitizeHtmlBodyParts.java:157-164 | `tag:attribute` removes that enforced attribute; a tag alone fails with REMOVE_ENFORCED_ATTRIBUTES_PROPERTY_INVALID |
| SanitizerConfig.EnforcedAttributesEntryRoundTrip | mailet/standard/src/main/java/org/apache/james/transport/mailets/SanitizeHtmlBodyParts.java:116-125 | corrected: `tag:attribute:value` enforces exactly that value, colons included |
| SanitizerConfig.EnforcedAttributesEntryTooFew | mailet/standard/src/test/java/org/apache/james/transport/mailets/SanitizeHtmlBodyPartsTest.java:121-133 | `tag:attribute` without a value fails with ENFORCED_ATTRIBUTES_PROPERTY_INVALID, as written and corrected |
| SanitizerConfig.EnforcedAttributesEntryAsWrittenCutsValue | mailet/standard/src/main/java/org/apache/james/transport/mailets/SanitizeHtmlBodyParts.java:116-125 | as written, the value `scheme:rest` is cut to `scheme`; corrected, it is kept whole |
| SanitizerConfig.EnforcedAttributesExample | mailet/standard/src/test/java/org/apache/james/transport/mailets/SanitizeHtmlBodyPartsTest.java:109-119 | the test's `a:href:https://www.example.com` enforces `https` as written and the whole URL corrected |
| SanitizerConfig.AttributesEntryRoundTrip | mailet/standard/src/main/java/org/apache/james/transport/mailets/SanitizeHtmlBodyParts.java:127-134 | `tag:attribute...` adds exactly that tag and those attributes |
| SanitizerConfig.AttributesEntryTagAlone | mailet/standard/src/main/java/org/apache/james/transport/mailets/SanitizeHtmlBodyParts.java:127-134 | corrected, a tag alone such as `img` fails with ATTRIBUTES_PROPERTY_INVALID; as written it passes the mailet's check as a call with no attribute names |
| SanitizerConfig.AttributesEntryAsWrittenRefusesOnlyColons | mailet/standard/src/main/java/org/apache/james/transport/mailets/SanitizeHtmlBodyParts.java:127-134 | as written, the mailet's own attributes check fails if and only if the entry is made of colons only |
| SanitizerConfig.RemoveAttributesEntryRoundTrip | mailet/standard/src/main/java/org/apache/james/transport/mailets/SanitizeHtmlBodyParts.java:138 | corrected, `tag:attribute...` removes those attributes from that tag; as written the call removes no attribute from a tag that is the whole entry, never the first field |
| SanitizerConfig.RemoveAttributesEntryTagAlone | mailet/standard/src/main/java/org/apache/james/transport/mailets/SanitizeHtmlBodyParts.java:138 | corrected, a tag alone fails with the removal's invalid-property error |
| SanitizerConfig.RemoveAttributesRefusedAsWritten | mailet/standard/src/main/java/org/apache/james/transport/mailets/SanitizeHtmlBodyParts.java:138 | as written, every `removeAttributes` value fails with the library's `NoAttributeNames` of that value |
| SanitizerConfig.RemoveAttributesAccepted | mailet/standard/src/main/java/org/apache/james/transport/mailets/SanitizeHtmlBodyParts.java:138 | corrected, `tag:attribute...` under `removeAttributes` removes exactly those attributes of that tag |
| SanitizerConfig.AttributesTagAloneRefused | mailet/standard/src/main/java/org/apache/james/transport/mailets/SanitizeHtmlBodyParts.java:127-134 | a tag alone under `attributes` is refused: as written by the library with `NoAttributeNames`, corrected by the mailet with ATTRIBUTES_PROPERTY_INVALID |
| SanitizerConfig.AttributesEntryAccepted | mailet/standard/src/main/java/org/apache/james/transport/mailets/SanitizeHtmlBodyParts.java:127-134 | `tag:attribute...` under `attributes` adds exactly that tag and those attributes under both parsings |
| SanitizerConfig.Run | mailet/standard/src/main/java/org/apache/james/transport/mailets/SanitizeHtmlBodyParts.java:94-145 | a run never makes more calls than it has entries |
| SanitizerConfig.RunMeaning | mailet/standard/src/main/java/org/apache/james/transport/mailets/SanitizeHtmlBodyParts.java:94-145 | the calls made are the parses of the entries in order; all entries are applied on success; on failure the next entry is the first that does not parse, and its error is the failure |
| SanitizerConfig.InitResult | mailet/standard/src/main/java/org/apache/james/transport/mailets/SanitizeHtmlBodyParts.java:80-92 | an unknown level is init's failure; a successful init keeps the configured level and makes one call per entry of the additions and the removals |
| SanitizerConfig.RunAppend | mailet/standard/src/main/java/org/apache/james/transport/mailets/SanitizeHtmlBodyParts.java:89-90 | running two lists of entries runs the second only when the first succeeds |
| SanitizerConfig.EntriesAppend | mailet/standard/src/main/java/org/apache/james/transport/mailets/SanitizeHtmlBodyParts.java:94-105 | the entries of consecutive parameter lists are consecutive |
| SanitizerConfig.EntriesFrom | mailet/standard/src/main/java/org/apache/james/transport/mailets/SanitizeHtmlBodyParts.java:94-145 | every entry is a value of one of the parameters read, under that parameter |
| SanitizerConfig.RunAllEntries | mailet/standard/src/main/java/org/apache/james/transport/mailets/SanitizeHtmlBodyParts.java:89-90 | init runs the additions and, only when all succeed, the removals |
| SanitizerConfig.RunKeepsOrder | mailet/standard/src/main/java/org/apache/james/transport/mailets/SanitizeHtmlBodyParts.java:89-90 | running adding entries before removing ones never applies an addition after a removal |
| SanitizerConfig.EntriesKeepOrder | mailet/standard/src/main/java/org/apache/james/transport/mailets/SanitizeHtmlBodyParts.java:94-145 | the same holds for the entries of adding parameters read before removing ones |
| SanitizerConfig.AdditionsBeforeRemovals | mailet/standard/src/main/java/org/apache/james/transport/mailets/SanitizeHtmlBodyParts.java:89-90 | init never adds a restriction after it has removed one |
| SanitizerConfig.RunsAgree | mailet/standard/src/main/java/org/apache/james/transport/mailets/SanitizeHtmlBodyParts.java:94-145 | entries of the lists the parsings agree on run alike under both |
| SanitizerConfig.InitResultsAgree | mailet/standard/src/main/java/org/apache/james/transport/mailets/SanitizeHtmlBodyParts.java:80-92 | a configuration without `attributes`, `enforcedAttributes` or `removeAttributes` values initialises alike under both parsings |
| SanitizerConfig.AddThenRemoveProtocolsRun | mailet/standard/src/main/java/org/apache/james/transport/mailets/SanitizeHtmlBodyParts.java:107-155 | adding protocols and then removing the same ones succeeds, with both calls made |
| SanitizerConfig.AddThenRemoveProtocols | mailet/standard/src/test/java/org/apache/james/transport/mailets/SanitizeHtmlBodyPartsTest.java:163-175 | a configuration with one entry in both `protocols` and `removeProtocols` initialises, making the addition and then the removal |
| SanitizerConfig.AddThenRemoveProtocolsExample | mailet/standard/src/test/java/org/apache/james/transport/mailets/SanitizeHtmlBodyPartsTest.java:163-175 | the test's `a:href:https`, added and removed, initialises with exactly those two calls |
| SanitizerConfig.TagAloneRun | mailet/standard/src/main/java/org/apache/james/transport/mailets/SanitizeHtmlBodyParts.java:94-134 | `tag:attribute` and then a tag alone under `attributes`: the first is added and the run stops at the second, with the library's refusal as written and ATTRIBUTES_PROPERTY_INVALID corrected |
| SanitizerConfig.AttributesTagAloneFailsInit | mailet/standard/src/main/java/org/apache/james/transport/mailets/SanitizeHtmlBodyParts.java:80-134 | a configuration whose only list is `attributes`, holding a tag with attributes and then a tag alone, fails init at the tag alone, as written and corrected |
| SanitizerConfig.AttributesTagAloneExample | mailet/standard/src/test/java/org/apache/james/transport/mailets/SanitizeHtmlBodyPartsTest.java:94-107 | the test's `a:href,img` under `attributes` makes init throw: as written through the library's refusal of `img` without attribute names, corrected with ATTRIBUTES_PROPERTY_INVALID |
| SanitizeHtmlBodyParts.Sanitized | mailet/standard/src/main/java/org/apache/james/transport/mailets/SanitizeHtmlBodyParts.java:208-216 | sanitising a part keeps its content type |
| SanitizeHtmlBodyParts.SanitizedAll | mailet/standard/src/main/java/org/apache/james/transport/mailets/SanitizeHtmlBodyParts.java:198-206 | every part of a multipart is sanitised, in place and order, and none is added or lost |
| SanitizeHtmlBodyParts.SanitizedHtmlTexts | mailet/standard/src/main/java/org/apache/james/transport/mailets/SanitizeHtmlBodyParts.java:208-216 | every HTML text the walk reaches is replaced by its cleaned form, in document order |
| SanitizeHtmlBodyParts.SanitizedOutline | mailet/standard/src/main/java/org/apache/james/transport/mailets/SanitizeHtmlBodyParts.java:175-216 | sanitising changes nothing but those HTML texts |
| SanitizeHtmlBodyParts.SanitizedCharacterised | mailet/standard/src/main/java/org/apache/james/transport/mailets/SanitizeHtmlBodyParts.java:175-216 | a part is the sanitised part if and only if it agrees with the original outside the reached HTML texts and holds their cleaned forms |
| SanitizeHtmlBodyParts.NoHtmlUnchanged | mailet/standard/src/main/java/org/apache/james/transport/mailets/SanitizeHtmlBodyParts.java:175-216 | a part without a reachable HTML text comes through unchanged |
| SanitizeHtmlBodyParts.SanitizedIdempotent | mailet/standard/src/main/java/org/apache/james/transport/mailets/SanitizeHtmlBodyParts.java:194-196 | with a cleaner that leaves cleaned HTML alone, sanitising twice is sanitising once |
| SanitizeHtmlBodyParts.SanitizedWellTyped | mailet/standard/src/main/java/org/apache/james/transport/mailets/SanitizeHtmlBodyParts.java:181-185 | after sanitising, an HTML part still holds text and a multipart part still holds parts |
| SanitizeHtmlBodyParts.Whitelist.constructor | mailet/standard/src/main/java/org/apache/james/transport/mailets/SanitizeHtmlBodyParts.java:87 | a new whitelist of the given level with no call made on it |
| SanitizeHtmlBodyParts.SanitizerLevels.constructor | mailet/standard/src/main/java/org/apache/james/transport/mailets/SanitizeHtmlBodyParts.java:59-76 | each level constant holds a new whitelist of its own level, with no call made on it |
| SanitizeHtmlBodyParts.SanitizeHtmlBodyPartsMailet.Init | mailet/standard/src/main/java/org/apache/james/transport/mailets/SanitizeHtmlBodyParts.java:80-92 | the outcome is `InitResult` under the as-written parsing; an unknown level fails with nothing assigned or changed; a configured level's whitelist is that constant's shared object, and without a level (absent or empty) it is a new NONE whitelist; the whitelist gains, after whatever it held, every call made before the first failure; no other level's whitelist changes; from an untouched whitelist, a successful init ends as `InitResult`'s |
| SanitizeHtmlBodyParts.SanitizeHtmlBodyPartsMailet.InitWithOwnWhitelist | mailet/standard/src/main/java/org/apache/james/transport/mailets/SanitizeHtmlBodyParts.java:80-92 | corrected init: the outcome is `InitResult` under the corrected parsing; the whitelist is a new one of the configured level holding exactly the calls made; no level constant's whitelist changes |
| SanitizeHtmlBodyParts.SanitizeHtmlBodyPartsMailet.Restrict | mailet/standard/src/main/java/org/apache/james/transport/mailets/SanitizeHtmlBodyParts.java:89-90 | the additions and then, if they all succeed, the removals: the whitelist gains exactly the calls of the run, and the outcome is its failure if any |
| SanitizeHtmlBodyParts.SanitizeHtmlBodyPartsMailet.ApplyParameters | mailet/standard/src/main/java/org/apache/james/transport/mailets/SanitizeHtmlBodyParts.java:94-105 | the parameters' values are applied in order until one fails; the whitelist gains exactly the calls of that run |
| SanitizeHtmlBodyParts.SanitizeHtmlBodyPartsMailet.ApplyValues | mailet/standard/src/main/java/org/apache/james/transport/mailets/SanitizeHtmlBodyParts.java:95-104 | one parameter's values are applied in order until one fails, with that failure |
| SanitizeHtmlBodyParts.SanitizeHtmlBodyPartsMailet.Service | mailet/standard/src/main/java/org/apache/james/transport/mailets/SanitizeHtmlBodyParts.java:175-192 | the mail's message body becomes its sanitised form; the rest of the message and the mail's state are unchanged |
| SanitizeHtmlBodyParts.SanitizeHtmlBodyPartsMailet.SanitizeMultipart | mailet/standard/src/main/java/org/apache/james/transport/mailets/SanitizeHtmlBodyParts.java:198-206 | the loop over the parts gives every part sanitised, in order |
| SanitizeHtmlBodyParts.SanitizeHtmlBodyPartsMailet.SanitizeBodyPart | mailet/standard/src/main/java/org/apache/james/transport/mailets/SanitizeHtmlBodyParts.java:208-216 | an HTML part gets its text cleaned, a multipart part is walked, and any other part is kept |
| SanitizeHtmlBodyParts.SharedLevelLeaks | mailet/standard/src/main/java/org/apache/james/transport/mailets/SanitizeHtmlBodyParts.java:59-92 | two instances configured with the same level end on one whitelist holding the first's calls and then the second's, so the first no longer holds its own configuration once the second makes any call |
| SanitizeHtmlBodyParts.InitAtSharedLevel | mailet/standard/src/main/java/org/apache/james/transport/mailets/SanitizeHtmlBodyParts.java:83-92 | an init with a configured level that succeeds makes the mailet's whitelist that level's shared object, whose log gains exactly the configured calls after those it already held |
| SanitizeHtmlBodyParts.OwnWhitelistsIndependent | mailet/standard/src/main/java/org/apache/james/transport/mailets/SanitizeHtmlBodyParts.java:80-92 | with the corrected init, each of two instances holds exactly the whitelist its own configuration asks for, whatever the other is given |

## Left out

- The implementation of `JamesMailetContext` is not part of this model. Its behaviour is taken from the assertions of C. The properties are those the tests pin down.
- `isLocalUser`: every name, bare or full, is judged through the rewrite table and the users repository. The test at C:138-149 expects a rewrite-table failure on the bare name `user`, so the bare name must reach the table too. A reading in which only a full address consults the table disagrees with that test, and the model follows the test.
- MailetContext.BareUserFailure: requires the default domain to be in the domain list. James's domain list adds its configured default domain, and the tests at C:125-149 rely on that. The model keeps domains and default domain as independent values.
- The domain list, users repository, rewrite table, queue factory and DNS service are abstract values. Their internals are not modelled. The rewrite table is one resolution function, and mapping errors other than a thrown exception are not modelled.
- The mailet base class `GenericMailet` is not part of this model. `getInitParameterAsOptional` is modelled as treating an empty value like an absent one (`SanitizerConfig.Given`), so an empty `level` selects NONE and an empty list has no values.
- `MailAddress` parsing is reduced to a split at the last `@`. Syntax checks of local part and domain are not modelled.
- MailetContext.JamesMailetContext.SendMessage: requires the message to have a From address (through `MailetContext.FromSender`). What the context does with a message without one is not modelled.
- MailetContext.JamesMailetContext.Dispatch: the spool queue never fails. An enqueue that throws, whose exception reaches the caller with nothing enqueued, is not modelled; neither is a failure of the queue factory.
- The bounce report's MIME construction is not modelled. Only its addressing is: it goes from the null sender to the original sender.
- The test at C:284-293 (bounce without a configured postmaster does not fail) has no counterpart. Postmaster configuration is not modelled.
- `Jsoup.clean` is an uninterpreted function parameter. A whitelist is the level it was made from plus the log of the calls made on it; what each level permits and what each call changes are not modelled.
- Of the whitelist library's argument checks, only the refusal of an attribute call without attribute names is modelled, as `NoAttributeNames`. Its other checks are not: an empty tag, attribute or protocol name, an empty enforced value, and a `removeProtocols` call for a tag or attribute whose protocols the whitelist does not hold. Each of these throws in the library and would fail `init`; the model applies the call.
- The message of the library's exception is not modelled. `NoAttributeNames` carries the tag instead.
- SanitizeHtmlBodyParts.SanitizeHtmlBodyPartsMailet.Init: requires the level constants to hold whitelists of their own levels (`SanitizerLevels.Valid`), which their constructor establishes. The enum's lazy class initialisation and its sharing across threads are not modelled.
- SanitizeHtmlBodyParts.SanitizeHtmlBodyPartsMailet.Service: requires a well-typed body. A content handler that returns something other than a String for an HTML part, or a Multipart for a multipart part, makes the source throw a `ClassCastException`; that is not modelled.
- SanitizeHtmlBodyParts.SanitizeHtmlBodyPartsMailet.Service: requires an assigned whitelist. Calling `service` before `init`, or after an `init` that failed on an unknown level, passes a null whitelist to the library; that is not modelled.
- The `IOException` that `service` catches and prints (M:188-190) is not modelled. Neither are the `MessagingException`s of the MIME API.
- The tree walk is modelled on values. `SanitizeMultipart` and `SanitizeBodyPart` return the new part instead of calling `setContent` on shared `BodyPart` objects, and `Service` stores the new body in the mail's message. Aliasing between body parts is not modelled.
- A content type is compared by primary and sub type only. Parameters and the parsing of the header are not modelled. Case-insensitive comparison covers ASCII letters.
- `toUpperCase` is modelled for the characters whose upper case is one ASCII letter. Other characters are kept, which cannot select a level name either way.
- SanitizerConfig.LevelOfAnyCase: assumes a JVM default locale without Turkic casing rules. Under a Turkish or Azerbaijani default locale, `basic` upper-cases to `BASİC` with a dotted capital I, which names no level, so `init` fails where the model selects BASIC.
- The configuration is keyed by parameter (`SanitizerConfig.Key`) rather than by name. SanitizerConfig.KeyNamesDistinct shows that no two parameters share a name.
- An invalid entry fails with `InvalidProperty` of its parameter. `SanitizerConfig.InvalidMessage` gives the exception message of each parameter, with the texts of M:52-57.
- The mailet's Javadoc at M:41-49 describes another mailet, and nothing is taken from it.
- The tests at T:177-191 and T:207-221 pass a message only as the assertion's failure text. At T:207-221 the entry `a` raises REMOVE_ENFORCED_ATTRIBUTES_PROPERTY_INVALID, as modelled. At T:177-191, `init` throws at the first entry `a:href:https`: the library refuses to remove protocols that the new NONE whitelist does not hold, so `a` is never read. That refusal is not modelled (see above); the model applies the first entry and then fails at `a` with REMOVE_PROTOCOLS_PROPERTY_INVALID. Likewise T:94-107 names ATTRIBUTES_PROPERTY_INVALID, but as written the exception that `init` throws there is the library's (SanitizerConfig.AttributesTagAloneExample).

## Findings

| source | as written | input that shows it | evidently intended | confidence | as-written member | corrected member |
|---|---|---|---|---|---|---|
| mailet/standard/src/main/java/org/apache/james/transport/mailets/SanitizeHtmlBodyParts.java:116-125 | the enforced value is the third colon-separated field alone, so a value that holds a colon is cut short | `a:href:https://www.example.com` from T:113-114 enforces `https` (SanitizerConfig.EnforcedAttributesExample) | the value is everything after the second colon (a split with limit 3), so the URL is kept whole | medium; not executed | SanitizerConfig.EnforcedAttributesEntryAsWritten | SanitizerConfig.EnforcedAttributesEntry |
| mailet/standard/src/main/java/org/apache/james/transport/mailets/SanitizeHtmlBodyParts.java:127-134 | only field 0 is read inside the `try`, so a tag without attributes never raises ATTRIBUTES_PROPERTY_INVALID; it reaches the library as an `addAttributes` call with no attribute names, and the library throws its own exception | `a:href,img` from T:99: `init` throws the library's exception for `img`, after `a:href` has been applied (SanitizerConfig.AttributesTagAloneExample, SanitizerConfig.AttributesTagAloneRefused) | a tag and at least one attribute, else ATTRIBUTES_PROPERTY_INVALID, the message the test names | medium; not executed | SanitizerConfig.AttributesEntryAsWritten | SanitizerConfig.AttributesEntry |
| mailet/standard/src/main/java/org/apache/james/transport/mailets/SanitizeHtmlBodyParts.java:138 | `removeAttributes` values are never split on `:`; the whole value is passed as the tag with no attribute names, which the library refuses, so every non-blank `removeAttributes` value makes `init` fail | `a:href` under `removeAttributes` fails `init` (SanitizerConfig.RemoveAttributesRefusedAsWritten) | `tag:attribute...` split like every other colon-separated list, removing those attributes from that tag (SanitizerConfig.RemoveAttributesAccepted) | medium; not executed | SanitizerConfig.RemoveAttributesEntryAsWritten | SanitizerConfig.RemoveAttributesEntry |
| mailet/standard/src/main/java/org/apache/james/transport/mailets/SanitizeHtmlBodyParts.java:59-92 | each `SanitizerLevel` constant holds one whitelist, made once, and `init` makes its calls on that object in place; every instance of the mailet configured with the same level shares it, so one instance's restrictions, including those applied before a failing entry, reach every other instance of that level | two instances with `level` `basic`, the first with `tags` `x` and the second with `removeTags` `y`: the first instance's whitelist also holds the removal of `y` (SanitizeHtmlBodyParts.SharedLevelLeaks) | each `init` works on a new whitelist made from the level's predefined one, so that instances are independent (SanitizeHtmlBodyParts.OwnWhitelistsIndependent) | high; not executed | SanitizeHtmlBodyParts.SanitizeHtmlBodyPartsMailet.Init | SanitizeHtmlBodyParts.SanitizeHtmlBodyPartsMailet.InitWithOwnWhitelist |

The mailet class's `Init` follows the code as written: the `AsWritten` parsing and the shared level whitelists. `InitWithOwnWhitelist` is `init` with all four corrections: the `Corrected` parsing and a whitelist of its own.
