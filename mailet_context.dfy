/**
 * The mailet routing context (JamesMailetContext): whether a domain, a user or
 * an address is served locally, which recipients of a list are local, and the
 * hand-off of mails to the spool queue by bounce and the sendMail overloads.
 *
 * The domain list, the users repository and the recipient rewrite table are
 * values of `Registries`; `failing` names the collaborator calls that throw,
 * as the tests arrange with their stubs. The spool queue is the log of the
 * calls made on it.
 */
module MailetContext {
  import opened Wrappers
  import opened Mailet

  /** The collaborator calls the locality queries make. */
  datatype Call =
    | ContainsDomain       // DomainList.containsDomain
    | GetDefaultDomain     // DomainList.getDefaultDomain
    | GetResolvedMappings  // RecipientRewriteTable.getResolvedMappings
    | ContainsUser         // UsersRepository.contains

  /** The RuntimeException a query throws, wrapping the collaborator's exception. */
  datatype Failure = Failure(cause: Call)

  /** What the locality queries consult. */
  datatype Registries = Registries(
    domains: set<Domain>,
    defaultDomain: Domain,
    /** Users of a repository with virtual hosting: full addresses. */
    users: set<MailAddress>,
    /** The address an address finally resolves to through the rewrite table. */
    resolve: MailAddress -> MailAddress,
    failing: set<Call>)

  /** The registries with `d` added to the domain list. */
  function WithDomain(r: Registries, d: Domain): Registries {
    r.(domains := r.domains + {d})
  }

  /** The registries with no collaborator failing. */
  function Healthy(r: Registries): Registries {
    r.(failing := {})
  }

  /** The answer of one collaborator call: its exception when it fails. */
  function Answer<T>(r: Registries, call: Call, value: T): Result<T, Failure> {
    if call in r.failing then Err(Failure(call)) else Ok(value)
  }

  /** isLocalServer: membership in the domain list. */
  function IsLocalServer(r: Registries, d: Domain): (local: Result<bool, Failure>)
    ensures local.Err? <==> ContainsDomain in r.failing
    ensures local.Err? ==> local.error == Failure(ContainsDomain)
    ensures local.Ok? ==> (local.value <==> d in r.domains)
  {
    Answer(r, ContainsDomain, d in r.domains)
  }

  /** isLocalEmail: no address is never local; otherwise the domain must be
      served here and the address the rewrite table resolves it to must be a
      user. The users repository is not asked about a foreign domain. */
  function IsLocalEmail(r: Registries, address: Option<MailAddress>): (local: Result<bool, Failure>)
    ensures address.None? ==> local == Ok(false)
    ensures local.Ok? ==>
      (local.value <==> address.Some? && address.value.domain in r.domains && r.resolve(address.value) in r.users)
    ensures local.Err? <==>
      (address.Some? &&
       (ContainsDomain in r.failing
        || (address.value.domain in r.domains && (GetResolvedMappings in r.failing || ContainsUser in r.failing))))
    ensures local.Err? ==> local.error.cause in r.failing
  {
    match address
    case None => Ok(false)
    case Some(a) =>
      match IsLocalServer(r, a.domain)
      case Err(f) => Err(f)
      case Ok(localDomain) =>
        if !localDomain then Ok(false)
        else
          match Answer(r, GetResolvedMappings, r.resolve(a))
          case Err(f) => Err(f)
          case Ok(principal) => Answer(r, ContainsUser, principal in r.users)
  }

  /** The index of the last `c` in `s`, or -1. */
  function LastIndexOf(s: string, c: char): (i: int)
    ensures -1 <= i < |s|
    ensures i >= 0 ==> s[i] == c
    ensures forall j :: i < j < |s| ==> s[j] != c
    decreases |s|
  {
    if |s| == 0 then -1
    else if s[|s| - 1] == c then |s| - 1
    else
      var init := s[..|s| - 1];
      var i := LastIndexOf(init, c);
      assert forall j :: i < j < |init| ==> s[j] == init[j];
      i
  }

  /** new MailAddress(name): local part and domain on either side of the last
      `@`; absent when either side is empty. */
  function ParseAddress(name: string): Option<MailAddress> {
    var at := LastIndexOf(name, '@');
    if at <= 0 || at == |name| - 1 then None
    else Some(MailAddress(name[..at], name[at + 1..]))
  }

  /** isLocalUser: no name is never local; a bare local part is completed with
      the default domain; either way the address is then judged by isLocalEmail.
      A name that is not an address is not local. */
  function IsLocalUser(r: Registries, name: Option<string>): (local: Result<bool, Failure>)
    ensures name.None? ==> local == Ok(false)
    ensures local == Ok(true) ==>
      (name.Some? &&
       var a := if '@' in name.value then ParseAddress(name.value) else Some(MailAddress(name.value, r.defaultDomain));
       a.Some? && a.value.domain in r.domains && r.resolve(a.value) in r.users)
    ensures local.Err? ==> local.error.cause in r.failing
  {
    match name
    case None => Ok(false)
    case Some(n) =>
      if '@' !in n then
        match Answer(r, GetDefaultDomain, r.defaultDomain)
        case Err(f) => Err(f)
        case Ok(d) => IsLocalEmail(r, Some(MailAddress(n, d)))
      else
        match ParseAddress(n)
        case None => Ok(false)
        case Some(a) => IsLocalEmail(r, Some(a))
  }

  /** localRecipients: the local addresses of the list, in their order; the
      first failing query fails the whole call. */
  function LocalRecipients(r: Registries, recipients: seq<MailAddress>): (res: Result<seq<MailAddress>, Failure>)
    ensures res.Ok? ==> |res.value| <= |recipients|
    ensures res.Ok? ==> forall a :: a in res.value <==> a in recipients && IsLocalEmail(r, Some(a)) == Ok(true)
    ensures res.Err? <==> exists a :: a in recipients && IsLocalEmail(r, Some(a)).Err?
  {
    if recipients == [] then Ok([])
    else
      match IsLocalEmail(r, Some(recipients[0]))
      case Err(f) => Err(f)
      case Ok(local) =>
        match LocalRecipients(r, recipients[1..])
        case Err(f) =>
          assert forall a :: a in recipients[1..] ==> a in recipients;
          Err(f)
        case Ok(rest) =>
          assert forall a :: a in recipients <==> a == recipients[0] || a in recipients[1..];
          Ok((if local then [recipients[0]] else []) + rest)
  }

  // ---------------------------------------------------------------------------
  // Locality properties

  /** No user and no address are never local, and asking costs no collaborator
      call: the answer holds even when every collaborator would fail. */
  lemma NothingIsNeverLocal(r: Registries)
    ensures IsLocalUser(r, None) == Ok(false)
    ensures IsLocalEmail(r, None) == Ok(false)
  {
  }

  /** A domain is not local before it is added to the domain list and is local after. */
  lemma LocalServerAfterAddDomain(r: Registries, d: Domain)
    requires ContainsDomain !in r.failing
    requires d !in r.domains
    ensures IsLocalServer(r, d) == Ok(false)
    ensures IsLocalServer(WithDomain(r, d), d) == Ok(true)
  {
  }

  /** `user@domain` is read as the address of local part `user` and domain `domain`. */
  lemma ParseAddressOf(user: string, domain: Domain)
    requires user != "" && domain != "" && '@' !in domain
    ensures ParseAddress(user + "@" + domain) == Some(MailAddress(user, domain))
  {
    var s := user + "@" + domain;
    var at := LastIndexOf(s, '@');
    assert s[|user|] == '@';
    assert s[|user| + 1..] == domain;
    assert forall j :: |user| + 1 <= j < |s| ==> s[j] != '@' by {
      forall j | |user| + 1 <= j < |s| ensures s[j] != '@' {
        assert s[j] == domain[j - |user| - 1];
      }
    }
    assert at == |user|;
    assert s[..|user|] == user;
  }

  /** isLocalEmail is true exactly when the domain is served here and the
      address resolves to an existing user; the domain alone is not enough. */
  lemma LocalEmailIffDomainAndUser(r: Registries, a: MailAddress)
    requires r.failing == {}
    ensures IsLocalEmail(r, Some(a)) == Ok(a.domain in r.domains && r.resolve(a) in r.users)
  {
  }

  /** A full address names its own domain; a bare local part is looked up at the
      default domain only: with `user@domain` a user and `domain` served here,
      `user@domain` is local, while `user` is local exactly when the user
      exists at the default domain, which may be another one. */
  lemma DefaultDomainCompletion(r: Registries, user: string, domain: Domain)
    requires r.failing == {}
    requires user != "" && '@' !in user && domain != "" && '@' !in domain
    requires domain in r.domains && r.defaultDomain in r.domains
    requires MailAddress(user, domain) in r.users
    requires r.resolve(MailAddress(user, domain)) == MailAddress(user, domain)
    requires r.resolve(MailAddress(user, r.defaultDomain)) == MailAddress(user, r.defaultDomain)
    ensures IsLocalUser(r, Some(user + "@" + domain)) == Ok(true)
    ensures IsLocalUser(r, Some(user)) == Ok(MailAddress(user, r.defaultDomain) in r.users)
    ensures r.defaultDomain == domain ==> IsLocalUser(r, Some(user)) == Ok(true)
  {
    ParseAddressOf(user, domain);
    assert '@' in user + "@" + domain by {
      assert (user + "@" + domain)[|user|] == '@';
    }
  }

  /** A failure of the domain list surfaces from isLocalServer, never as false. */
  lemma LocalServerFailure(r: Registries, d: Domain)
    ensures IsLocalServer(r, d).Err? <==> ContainsDomain in r.failing
    ensures ContainsDomain in r.failing ==> IsLocalServer(r, d) == Err(Failure(ContainsDomain))
  {
  }

  /** isLocalEmail fails exactly when a call it makes fails: the domain check
      always, the rewrite table and the users repository once the domain is
      local; the failure names the first failing call. */
  lemma LocalEmailFailure(r: Registries, a: MailAddress)
    ensures IsLocalEmail(r, Some(a)).Err? <==>
      (ContainsDomain in r.failing
       || (a.domain in r.domains && (GetResolvedMappings in r.failing || ContainsUser in r.failing)))
    ensures ContainsDomain in r.failing ==> IsLocalEmail(r, Some(a)) == Err(Failure(ContainsDomain))
    ensures ContainsDomain !in r.failing && a.domain in r.domains && GetResolvedMappings in r.failing ==>
      IsLocalEmail(r, Some(a)) == Err(Failure(GetResolvedMappings))
  {
  }

  /** isLocalUser on a bare name fails when the default domain cannot be read,
      and otherwise fails or answers exactly as isLocalEmail on the completed address. */
  lemma LocalUserFailure(r: Registries, user: string)
    requires '@' !in user
    ensures GetDefaultDomain in r.failing ==> IsLocalUser(r, Some(user)) == Err(Failure(GetDefaultDomain))
    ensures GetDefaultDomain !in r.failing ==>
      IsLocalUser(r, Some(user)) == IsLocalEmail(r, Some(MailAddress(user, r.defaultDomain)))
  {
  }

  /** isLocalUser on a full address fails or answers exactly as isLocalEmail
      on the address it parses to, and a name that is not an address is not
      local. */
  lemma LocalUserFullAddress(r: Registries, name: string)
    requires '@' in name
    ensures IsLocalUser(r, Some(name)) == IsLocalEmail(r, ParseAddress(name))
    ensures ParseAddress(name).None? ==> IsLocalUser(r, Some(name)) == Ok(false)
  {
  }

  /** A bare local part is looked up at the default domain, which the domain
      list always serves: a failing default domain, rewrite table or users
      repository makes isLocalUser fail, naming the first call that failed. */
  lemma BareUserFailure(r: Registries, user: string)
    requires '@' !in user && r.defaultDomain in r.domains
    ensures GetDefaultDomain in r.failing ==> IsLocalUser(r, Some(user)) == Err(Failure(GetDefaultDomain))
    ensures GetDefaultDomain !in r.failing && ContainsDomain !in r.failing && GetResolvedMappings in r.failing ==>
      IsLocalUser(r, Some(user)) == Err(Failure(GetResolvedMappings))
    ensures (GetDefaultDomain !in r.failing && ContainsDomain !in r.failing && GetResolvedMappings !in r.failing
             && ContainsUser in r.failing) ==>
      IsLocalUser(r, Some(user)) == Err(Failure(ContainsUser))
  {
    LocalUserFailure(r, user);
  }

  /** A failing collaborator never changes an answer: every query either
      fails or answers as it would with every collaborator healthy. */
  lemma FailuresAreNeverAnswers(r: Registries, d: Domain, name: Option<string>, address: Option<MailAddress>)
    ensures IsLocalServer(r, d).Ok? ==> IsLocalServer(r, d) == IsLocalServer(Healthy(r), d)
    ensures IsLocalEmail(r, address).Ok? ==> IsLocalEmail(r, address) == IsLocalEmail(Healthy(r), address)
    ensures IsLocalUser(r, name).Ok? ==> IsLocalUser(r, name) == IsLocalUser(Healthy(r), name)
  {
  }

  /** The same holds of localRecipients, over the whole list. */
  lemma {:induction false} LocalRecipientsIgnoreUnusedFailures(r: Registries, recipients: seq<MailAddress>)
    ensures LocalRecipients(r, recipients).Ok? ==>
      LocalRecipients(r, recipients) == LocalRecipients(Healthy(r), recipients)
    decreases |recipients|
  {
    if recipients != [] {
      FailuresAreNeverAnswers(r, "", None, Some(recipients[0]));
      LocalRecipientsIgnoreUnusedFailures(r, recipients[1..]);
    }
  }

  /** localRecipients keeps the order of its input: filtering a concatenation
      concatenates the filtered halves. */
  lemma {:induction false} LocalRecipientsAppend(r: Registries, xs: seq<MailAddress>, ys: seq<MailAddress>)
    requires LocalRecipients(r, xs).Ok? && LocalRecipients(r, ys).Ok?
    ensures LocalRecipients(r, xs + ys) == Ok(LocalRecipients(r, xs).value + LocalRecipients(r, ys).value)
    decreases |xs|
  {
    if xs == [] {
      assert xs + ys == ys;
      assert LocalRecipients(r, xs) == Ok([]);
      assert [] + LocalRecipients(r, ys).value == LocalRecipients(r, ys).value;
    } else {
      var zs := xs + ys;
      assert zs != [] && zs[0] == xs[0] && zs[1..] == xs[1..] + ys;
      var head := IsLocalEmail(r, Some(xs[0]));
      var restX := LocalRecipients(r, xs[1..]);
      assert head.Ok? && restX.Ok?;
      LocalRecipientsAppend(r, xs[1..], ys);
      var keep: seq<MailAddress> := if head.value then [xs[0]] else [];
      assert LocalRecipients(r, xs) == Ok(keep + restX.value);
      assert LocalRecipients(r, zs) == Ok(keep + (restX.value + LocalRecipients(r, ys).value));
      ConcatAssociative(keep, restX.value, LocalRecipients(r, ys).value);
    }
  }

  /** A list holding one local and one non-local address yields the local one alone. */
  lemma LocalRecipientsDropsNonLocal(r: Registries, local: MailAddress, other: MailAddress)
    requires IsLocalEmail(r, Some(local)) == Ok(true)
    requires IsLocalEmail(r, Some(other)) == Ok(false)
    ensures LocalRecipients(r, [local, other]) == Ok([local])
  {
    assert [local, other][1..] == [other];
    assert [other][1..] == [];
    assert LocalRecipients(r, []) == Ok([]);
    assert LocalRecipients(r, [other]) == Ok([] + []);
    assert LocalRecipients(r, [local, other]) == Ok([local] + ([] + []));
    assert [local] + ([] + []) == [local];
  }

  // ---------------------------------------------------------------------------
  // Queue dispatch

  datatype TimeUnit = NANOSECONDS | MICROSECONDS | MILLISECONDS | SECONDS | MINUTES | HOURS | DAYS

  /** A delay as enQueue receives it: the amount (a Java long) and its unit. */
  datatype Delay = Delay(amount: int, unit: TimeUnit)

  /** One call on the spool queue: enQueue(mail) when `delay` is None,
      enQueue(mail, amount, unit) otherwise. `state` is the mail's state when
      the queue received it. */
  datatype EnqueueCall = EnqueueCall(mail: Mail, state: string, delay: Option<Delay>)

  /** The state a mail is sent in when no other is given: its own, or DEFAULT when unset. */
  function OwnState(state: Option<string>): string {
    match state
    case Some(s) => s
    case None => DEFAULT
  }

  /** The sender a message names in its From header. */
  function FromSender(message: MimeMessage): MaybeSender
    requires |message.from| > 0
  {
    Sender(message.from[0])
  }

  class JamesMailetContext {
    /** The calls made on the spool queue, oldest first. */
    var spool: seq<EnqueueCall>

    constructor ()
      ensures spool == []
    {
      spool := [];
    }

    /** The path every send ends in: set the mail's state, then exactly one
        call on the queue, immediate or delayed, with the delay passed through. */
    method Dispatch(mail: Mail, state: string, delay: Option<Delay>)
      modifies this`spool, mail`state
      ensures mail.state == Some(state)
      ensures spool == old(spool) + [EnqueueCall(mail, state, delay)]
    {
      mail.state := Some(state);
      spool := spool + [EnqueueCall(mail, state, delay)];
    }

    /** sendMail(mail): one immediate enqueue in the mail's own state (DEFAULT when unset). */
    method SendMail(mail: Mail)
      modifies this`spool, mail`state
      ensures mail.state == Some(OwnState(old(mail.state)))
      ensures spool == old(spool) + [EnqueueCall(mail, OwnState(old(mail.state)), None)]
    {
      Dispatch(mail, OwnState(mail.state), None);
    }

    /** sendMail(mail, state): one immediate enqueue in the given state. */
    method SendMailInState(mail: Mail, state: string)
      modifies this`spool, mail`state
      ensures mail.state == Some(state)
      ensures spool == old(spool) + [EnqueueCall(mail, state, None)]
    {
      Dispatch(mail, state, None);
    }

    /** sendMail(mail, delay, unit): one delayed enqueue in the mail's own state,
        amount and unit unchanged. */
    method SendMailDelayed(mail: Mail, amount: int, unit: TimeUnit)
      modifies this`spool, mail`state
      ensures mail.state == Some(OwnState(old(mail.state)))
      ensures spool == old(spool) + [EnqueueCall(mail, OwnState(old(mail.state)), Some(Delay(amount, unit)))]
    {
      Dispatch(mail, OwnState(mail.state), Some(Delay(amount, unit)));
    }

    /** sendMail(mail, state, delay, unit): one delayed enqueue in the given
        state, amount and unit unchanged. */
    method SendMailInStateDelayed(mail: Mail, state: string, amount: int, unit: TimeUnit)
      modifies this`spool, mail`state
      ensures mail.state == Some(state)
      ensures spool == old(spool) + [EnqueueCall(mail, state, Some(Delay(amount, unit)))]
    {
      Dispatch(mail, state, Some(Delay(amount, unit)));
    }

    /** sendMail(sender, recipients, message, state): a new mail for the
        envelope, enqueued once, immediately, in the given state. */
    method SendEnvelopeInState(name: string, sender: MaybeSender, recipients: seq<MailAddress>,
                               message: MimeMessage, state: string) returns (mail: Mail)
      modifies this`spool
      ensures fresh(mail)
      ensures mail.sender == sender && mail.recipients == recipients && mail.message == message
      ensures mail.state == Some(state)
      ensures spool == old(spool) + [EnqueueCall(mail, state, None)]
    {
      mail := new Mail(name, sender, recipients, message, None);
      Dispatch(mail, state, None);
    }

    /** sendMail(sender, recipients, message): as above, in state DEFAULT. */
    method SendEnvelope(name: string, sender: MaybeSender, recipients: seq<MailAddress>,
                        message: MimeMessage) returns (mail: Mail)
      modifies this`spool
      ensures fresh(mail)
      ensures mail.sender == sender && mail.recipients == recipients && mail.message == message
      ensures mail.state == Some(DEFAULT)
      ensures spool == old(spool) + [EnqueueCall(mail, DEFAULT, None)]
    {
      mail := SendEnvelopeInState(name, sender, recipients, message, DEFAULT);
    }

    /** sendMail(message): the envelope is read from the message's From and
        recipient headers; one immediate enqueue in state DEFAULT. */
    method SendMessage(name: string, message: MimeMessage) returns (mail: Mail)
      requires |message.from| > 0
      modifies this`spool
      ensures fresh(mail)
      ensures mail.sender == FromSender(message) && mail.recipients == message.recipients
      ensures mail.message == message
      ensures spool == old(spool) + [EnqueueCall(mail, DEFAULT, None)]
    {
      mail := SendEnvelope(name, FromSender(message), message.recipients, message);
    }

    /** bounce(mail, explanation): nothing at all for a mail without a sender or
        with the null sender; otherwise one immediate enqueue, in state DEFAULT,
        of a new report mail from the null sender to the original sender. */
    method Bounce(mail: Mail, explanation: string, reportName: string)
      modifies this`spool
      ensures !mail.sender.HasSender() ==> spool == old(spool)
      ensures mail.sender.HasSender() ==>
        && |spool| == |old(spool)| + 1
        && spool[..|old(spool)|] == old(spool)
        && spool[|old(spool)|].state == DEFAULT
        && spool[|old(spool)|].delay == None
        && fresh(spool[|old(spool)|].mail)
        && spool[|old(spool)|].mail.sender == NullSender
        && spool[|old(spool)|].mail.recipients == [mail.sender.address]
        && spool[|old(spool)|].mail.message == BounceReport(explanation, mail.message, mail.sender.address)
    {
      if !mail.sender.HasSender() {
        return;
      }
      var original := mail.sender.address;
      var report := new Mail(reportName, NullSender, [original],
                             BounceReport(explanation, mail.message, original), None);
      SendMail(report);
    }
  }

  /** The bounce interactions of the context's tests, from the contracts alone. */
  method BounceScenarios(address: MailAddress, message: MimeMessage)
  {
    var context := new JamesMailetContext();
    var noSender := new Mail("mail1", NoSender, [address], message, None);
    context.Bounce(noSender, "message", "bounce");
    var nullSender := new Mail("mail1", NullSender, [address], message, None);
    context.Bounce(nullSender, "message", "bounce");
    assert context.spool == [];

    var mail := new Mail("mail1", Sender(address), [address], message, None);
    context.Bounce(mail, "message", "bounce");
    assert |context.spool| == 1 && context.spool[0].state == DEFAULT && context.spool[0].delay == None;
  }

  /** The sendMail interactions of the context's tests, from the contracts alone. */
  method SendScenarios(address: MailAddress, message: MimeMessage)
  {
    var context := new JamesMailetContext();
    var mail := new Mail("mail1", Sender(address), [address], message, None);
    context.SendMail(mail);
    assert context.spool == [EnqueueCall(mail, DEFAULT, None)];

    context := new JamesMailetContext();
    var fresh1 := new Mail("mail1", Sender(address), [address], message, None);
    context.SendMailDelayed(fresh1, 5, MINUTES);
    assert context.spool == [EnqueueCall(fresh1, DEFAULT, Some(Delay(5, MINUTES)))];

    context := new JamesMailetContext();
    context.SendMailInStateDelayed(fresh1, "other", 5, MINUTES);
    assert context.spool == [EnqueueCall(fresh1, "other", Some(Delay(5, MINUTES)))];

    context := new JamesMailetContext();
    var other := new Mail("name", Sender(address), [address], message, Some("other"));
    context.SendMail(other);
    assert context.spool == [EnqueueCall(other, "other", None)];
  }
}
