/**
 * The SanitizeHtmlBodyParts mailet: init builds its whitelist from the
 * configuration, and service passes every HTML body part of a mail, at any
 * depth of multipart nesting, through the HTML cleaner.
 */
module SanitizeHtmlBodyParts {
  import opened Wrappers
  import opened Mailet
  import opened SanitizerConfig

  /** Jsoup.clean: the library's cleaner, taking HTML and a whitelist to safe HTML. */
  type Cleaner = (string, WhitelistState) -> string

  /** Part.isMimeType("text/html"). */
  predicate IsHtml(t: ContentType) {
    IsMimeType(t, "text", "html")
  }

  /** Part.isMimeType for the multipart type with any sub-type. */
  predicate IsMultipart(t: ContentType) {
    IsMimeType(t, "multipart", "*")
  }

  /** What the MIME content handlers hand back, and what the mailet's casts rely
      on: a String for an HTML part and a Multipart for a multipart part, all
      the way down. */
  predicate WellTyped(p: Part)
    decreases p
  {
    (IsHtml(p.contentType) ==> p.content.Text?)
    && (IsMultipart(p.contentType) ==> p.content.Multipart?)
    && (p.content.Multipart? ==> forall i :: 0 <= i < |p.content.parts| ==> WellTyped(p.content.parts[i]))
  }

  // ---------------------------------------------------------------------------
  // What sanitising a part means

  /** A part as sanitizeBodyPart leaves it: an HTML part holds its cleaned
      text, a multipart part has each of its parts sanitised, and any other
      part (plain text, an attached message, binary data) is left as it is. */
  function Sanitized(p: Part, clean: Cleaner, w: WhitelistState): (r: Part)
    ensures r.contentType == p.contentType
    decreases p
  {
    if IsHtml(p.contentType) && p.content.Text? then
      Part(p.contentType, Text(clean(p.content.text, w)))
    else if IsMultipart(p.contentType) && p.content.Multipart? then
      Part(p.contentType, Multipart(SanitizedAll(p.content.parts, clean, w)))
    else
      p
  }

  /** The parts of a multipart, each sanitised, in their order. */
  function SanitizedAll(parts: seq<Part>, clean: Cleaner, w: WhitelistState): (r: seq<Part>)
    ensures |r| == |parts|
    ensures forall i :: 0 <= i < |parts| ==> r[i] == Sanitized(parts[i], clean, w)
    decreases parts
  {
    if parts == [] then [] else [Sanitized(parts[0], clean, w)] + SanitizedAll(parts[1..], clean, w)
  }

  /** The HTML texts the walk reaches, in document order. */
  function HtmlTexts(p: Part): seq<string>
    decreases p
  {
    if IsHtml(p.contentType) && p.content.Text? then [p.content.text]
    else if IsMultipart(p.contentType) && p.content.Multipart? then HtmlTextsAll(p.content.parts)
    else []
  }

  /** The HTML texts of a list of parts, one part after the other. */
  function HtmlTextsAll(parts: seq<Part>): seq<string>
    decreases parts
  {
    if parts == [] then [] else HtmlTexts(parts[0]) + HtmlTextsAll(parts[1..])
  }

  /** A part with the text of every HTML part the walk reaches blanked out:
      everything the walk must leave alone. */
  function Outline(p: Part): Part
    decreases p
  {
    if IsHtml(p.contentType) && p.content.Text? then Part(p.contentType, Text(""))
    else if IsMultipart(p.contentType) && p.content.Multipart? then Part(p.contentType, Multipart(OutlineAll(p.content.parts)))
    else p
  }

  /** The outlines of a list of parts. */
  function OutlineAll(parts: seq<Part>): (r: seq<Part>)
    ensures |r| == |parts|
    decreases parts
  {
    if parts == [] then [] else [Outline(parts[0])] + OutlineAll(parts[1..])
  }

  /** Each text put through the cleaner. */
  function CleanAll(texts: seq<string>, clean: Cleaner, w: WhitelistState): (r: seq<string>)
    ensures |r| == |texts|
  {
    seq(|texts|, i requires 0 <= i < |texts| => clean(texts[i], w))
  }

  lemma CleanAllAppend(a: seq<string>, b: seq<string>, clean: Cleaner, w: WhitelistState)
    ensures CleanAll(a + b, clean, w) == CleanAll(a, clean, w) + CleanAll(b, clean, w)
  {
    assert forall i :: 0 <= i < |a + b| ==> CleanAll(a + b, clean, w)[i] == (CleanAll(a, clean, w) + CleanAll(b, clean, w))[i];
  }

  // ---------------------------------------------------------------------------
  // Properties of the walk

  /** Every HTML text the walk reaches is replaced by its cleaned form, in order. */
  lemma {:induction false} SanitizedHtmlTexts(p: Part, clean: Cleaner, w: WhitelistState)
    ensures HtmlTexts(Sanitized(p, clean, w)) == CleanAll(HtmlTexts(p), clean, w)
    decreases p
  {
    if IsHtml(p.contentType) && p.content.Text? {
    } else if IsMultipart(p.contentType) && p.content.Multipart? {
      SanitizedAllHtmlTexts(p.content.parts, clean, w);
    } else {
    }
  }

  lemma {:induction false} SanitizedAllHtmlTexts(parts: seq<Part>, clean: Cleaner, w: WhitelistState)
    ensures HtmlTextsAll(SanitizedAll(parts, clean, w)) == CleanAll(HtmlTextsAll(parts), clean, w)
    decreases parts
  {
    if parts != [] {
      var s := SanitizedAll(parts, clean, w);
      assert s[0] == Sanitized(parts[0], clean, w);
      assert s[1..] == SanitizedAll(parts[1..], clean, w);
      SanitizedHtmlTexts(parts[0], clean, w);
      SanitizedAllHtmlTexts(parts[1..], clean, w);
      CleanAllAppend(HtmlTexts(parts[0]), HtmlTextsAll(parts[1..]), clean, w);
    }
  }

  /** Sanitising changes nothing but the HTML texts the walk reaches. */
  lemma {:induction false} SanitizedOutline(p: Part, clean: Cleaner, w: WhitelistState)
    ensures Outline(Sanitized(p, clean, w)) == Outline(p)
    decreases p
  {
    if IsHtml(p.contentType) && p.content.Text? {
    } else if IsMultipart(p.contentType) && p.content.Multipart? {
      SanitizedAllOutline(p.content.parts, clean, w);
    } else {
    }
  }

  lemma {:induction false} SanitizedAllOutline(parts: seq<Part>, clean: Cleaner, w: WhitelistState)
    ensures OutlineAll(SanitizedAll(parts, clean, w)) == OutlineAll(parts)
    decreases parts
  {
    if parts != [] {
      var s := SanitizedAll(parts, clean, w);
      assert s[0] == Sanitized(parts[0], clean, w);
      assert s[1..] == SanitizedAll(parts[1..], clean, w);
      SanitizedOutline(parts[0], clean, w);
      SanitizedAllOutline(parts[1..], clean, w);
    }
  }

  /** Parts with the same outline hold equally many HTML texts. */
  lemma {:induction false} OutlineCountsTexts(p: Part, q: Part)
    requires Outline(p) == Outline(q)
    ensures |HtmlTexts(p)| == |HtmlTexts(q)|
    decreases p
  {
    if IsHtml(p.contentType) && p.content.Text? {
    } else if IsMultipart(p.contentType) && p.content.Multipart? {
      OutlineAllCountsTexts(p.content.parts, q.content.parts);
    } else {
    }
  }

  lemma {:induction false} OutlineAllCountsTexts(ps: seq<Part>, qs: seq<Part>)
    requires OutlineAll(ps) == OutlineAll(qs)
    ensures |HtmlTextsAll(ps)| == |HtmlTextsAll(qs)|
    decreases ps
  {
    if ps != [] {
      assert OutlineAll(ps)[0] == OutlineAll(qs)[0];
      assert OutlineAll(ps)[1..] == OutlineAll(qs)[1..];
      OutlineCountsTexts(ps[0], qs[0]);
      OutlineAllCountsTexts(ps[1..], qs[1..]);
    }
  }

  /** A part is determined by its outline and its HTML texts. */
  lemma {:induction false} OutlineAndTextsDetermine(p: Part, q: Part)
    requires Outline(p) == Outline(q) && HtmlTexts(p) == HtmlTexts(q)
    ensures p == q
    decreases p
  {
    if IsHtml(p.contentType) && p.content.Text? {
    } else if IsMultipart(p.contentType) && p.content.Multipart? {
      OutlineAllAndTextsDetermine(p.content.parts, q.content.parts);
    } else {
    }
  }

  lemma {:induction false} OutlineAllAndTextsDetermine(ps: seq<Part>, qs: seq<Part>)
    requires OutlineAll(ps) == OutlineAll(qs) && HtmlTextsAll(ps) == HtmlTextsAll(qs)
    ensures ps == qs
    decreases ps
  {
    if ps != [] {
      assert OutlineAll(ps)[0] == OutlineAll(qs)[0];
      assert OutlineAll(ps)[1..] == OutlineAll(qs)[1..];
      OutlineCountsTexts(ps[0], qs[0]);
      var n := |HtmlTexts(ps[0])|;
      assert HtmlTexts(ps[0]) == HtmlTextsAll(ps)[..n] == HtmlTextsAll(qs)[..n] == HtmlTexts(qs[0]);
      assert HtmlTextsAll(ps[1..]) == HtmlTextsAll(ps)[n..] == HtmlTextsAll(qs)[n..] == HtmlTextsAll(qs[1..]);
      OutlineAndTextsDetermine(ps[0], qs[0]);
      OutlineAllAndTextsDetermine(ps[1..], qs[1..]);
      assert ps == [ps[0]] + ps[1..];
      assert qs == [qs[0]] + qs[1..];
    }
  }

  /** The sanitised part is exactly the part whose HTML texts are the cleaned
      texts of the original and which agrees with the original everywhere else. */
  lemma SanitizedCharacterised(p: Part, q: Part, clean: Cleaner, w: WhitelistState)
    ensures q == Sanitized(p, clean, w) <==> Outline(q) == Outline(p) && HtmlTexts(q) == CleanAll(HtmlTexts(p), clean, w)
  {
    SanitizedOutline(p, clean, w);
    SanitizedHtmlTexts(p, clean, w);
    if Outline(q) == Outline(p) && HtmlTexts(q) == CleanAll(HtmlTexts(p), clean, w) {
      OutlineAndTextsDetermine(q, Sanitized(p, clean, w));
    }
  }

  /** A part without any HTML text the walk reaches comes through unchanged. */
  lemma NoHtmlUnchanged(p: Part, clean: Cleaner, w: WhitelistState)
    requires HtmlTexts(p) == []
    ensures Sanitized(p, clean, w) == p
  {
    SanitizedCharacterised(p, p, clean, w);
  }

  /** With a cleaner that leaves cleaned HTML alone, sanitising twice is
      sanitising once. */
  lemma SanitizedIdempotent(p: Part, clean: Cleaner, w: WhitelistState)
    requires forall html :: clean(clean(html, w), w) == clean(html, w)
    ensures Sanitized(Sanitized(p, clean, w), clean, w) == Sanitized(p, clean, w)
  {
    var once := Sanitized(p, clean, w);
    SanitizedCharacterised(p, once, clean, w);
    SanitizedCharacterised(once, Sanitized(once, clean, w), clean, w);
    var texts := HtmlTexts(p);
    assert CleanAll(CleanAll(texts, clean, w), clean, w) == CleanAll(texts, clean, w);
    OutlineAndTextsDetermine(Sanitized(once, clean, w), once);
  }

  /** Sanitising keeps a part well typed: an HTML part still holds text and a
      multipart part still holds parts. */
  lemma {:induction false} SanitizedWellTyped(p: Part, clean: Cleaner, w: WhitelistState)
    requires WellTyped(p)
    ensures WellTyped(Sanitized(p, clean, w))
    decreases p
  {
    if IsHtml(p.contentType) && p.content.Text? {
    } else if IsMultipart(p.contentType) && p.content.Multipart? {
      var parts := p.content.parts;
      var s := SanitizedAll(parts, clean, w);
      forall i | 0 <= i < |s| ensures WellTyped(s[i]) {
        SanitizedWellTyped(parts[i], clean, w);
      }
    } else {
    }
  }

  // ---------------------------------------------------------------------------
  // Whitelist objects

  /** A whitelist object of the library: the predefined whitelist it was made
      from and the calls made on it since, in place. */
  class Whitelist {
    const level: SanitizerLevel
    var applied: seq<WhitelistOp>

    constructor (level: SanitizerLevel)
      ensures this.level == level && applied == []
    {
      this.level := level;
      applied := [];
    }

    /** What the whitelist amounts to now. */
    function State(): WhitelistState
      reads this
    {
      WhitelistState(level, applied)
    }
  }

  /** The SanitizerLevel enum: each constant holds one whitelist, made once
      and shared by every instance of the mailet that names the level. */
  class SanitizerLevels {
    const basic: Whitelist
    const basicWithImages: Whitelist
    const relaxed: Whitelist
    const none: Whitelist
    const simpleText: Whitelist

    /** Each constant holds a whitelist of its own level, so no two share one. */
    predicate Valid() {
      forall level: SanitizerLevel :: Of(level).level == level
    }

    constructor ()
      ensures Valid() && fresh(Objects())
      ensures forall level: SanitizerLevel :: Of(level).applied == []
    {
      basic := new Whitelist(BASIC);
      basicWithImages := new Whitelist(BASICWITHIMAGES);
      relaxed := new Whitelist(RELAXED);
      none := new Whitelist(NONE);
      simpleText := new Whitelist(SIMPLETEXT);
    }

    /** getWhitelist: the constant's own whitelist object. */
    function Of(level: SanitizerLevel): Whitelist {
      match level
      case BASIC => basic
      case BASICWITHIMAGES => basicWithImages
      case RELAXED => relaxed
      case NONE => none
      case SIMPLETEXT => simpleText
    }

    /** All the constants' whitelists. */
    function Objects(): set<Whitelist> {
      {basic, basicWithImages, relaxed, none, simpleText}
    }
  }

  // ---------------------------------------------------------------------------
  // The mailet

  /** The mailet object: the cleaner it delegates to, the level whitelists it
      shares with every other instance, and the whitelist that init assigns
      and service uses. */
  class SanitizeHtmlBodyPartsMailet {
    /** Jsoup.clean. */
    const clean: Cleaner
    /** The SanitizerLevel constants. */
    const levels: SanitizerLevels
    /** null until init assigns it. */
    var whitelist: Whitelist?

    constructor (clean: Cleaner, levels: SanitizerLevels)
      ensures this.clean == clean && this.levels == levels && whitelist == null
    {
      this.clean := clean;
      this.levels := levels;
      whitelist := null;
    }

    /** init: takes the whitelist of the configured level, which is that
        constant's shared object, or a new empty whitelist when no level is
        configured; then applies to it, in place, every addition and every
        removal the configuration lists. An unknown level fails before the
        whitelist is assigned; a refused entry fails with the entries before
        it already applied. */
    method Init(config: Config) returns (outcome: Outcome<InitError>)
      requires levels.Valid()
      modifies this, levels.Objects()
      ensures outcome == (match InitResult(AsWritten, config) case Ok(_) => Pass case Err(e) => Fail(e))
      ensures LevelOf(config).Err? ==>
        whitelist == old(whitelist) && forall level :: levels.Of(level).applied == old(levels.Of(level).applied)
      ensures LevelOf(config).Ok? && Given(config, LevelKey) ==> whitelist == levels.Of(LevelOf(config).value)
      ensures !Given(config, LevelKey) ==> fresh(whitelist) && whitelist.level == NONE
      ensures LevelOf(config).Ok? ==>
        var start := if Given(config, LevelKey) then old(levels.Of(LevelOf(config).value).applied) else [];
        whitelist != null && whitelist.applied == start + Run(AsWritten, Entries(config, Additions + Removals)).applied
      ensures forall level :: levels.Of(level) != whitelist ==> levels.Of(level).applied == old(levels.Of(level).applied)
      ensures InitResult(AsWritten, config).Ok? && (Given(config, LevelKey) ==> old(levels.Of(LevelOf(config).value).applied) == []) ==>
        whitelist.State() == InitResult(AsWritten, config).value
    {
      var level := LevelOf(config);
      if level.Err? {
        return Fail(level.error);
      }
      if Given(config, LevelKey) {
        whitelist := levels.Of(level.value);
      } else {
        whitelist := new Whitelist(NONE);
      }
      outcome := Restrict(AsWritten, config);
    }

    /** init corrected: the entries read with the corrected parsing and
        applied to a new whitelist made from the level's predefined one, so
        that neither the level's constant nor any other instance of the
        mailet sees this configuration's restrictions. */
    method InitWithOwnWhitelist(config: Config) returns (outcome: Outcome<InitError>)
      modifies this
      ensures outcome == (match InitResult(Corrected, config) case Ok(_) => Pass case Err(e) => Fail(e))
      ensures LevelOf(config).Err? ==> whitelist == old(whitelist)
      ensures LevelOf(config).Ok? ==>
        fresh(whitelist)
        && whitelist.State() == WhitelistState(LevelOf(config).value, Run(Corrected, Entries(config, Additions + Removals)).applied)
      ensures InitResult(Corrected, config).Ok? ==> whitelist.State() == InitResult(Corrected, config).value
      ensures forall level :: levels.Of(level).applied == old(levels.Of(level).applied)
    {
      var level := LevelOf(config);
      if level.Err? {
        return Fail(level.error);
      }
      whitelist := new Whitelist(level.value);
      outcome := Restrict(Corrected, config);
    }

    /** addRestrictions and then, unless it throws, removeRestrictions. */
    method Restrict(parsing: Parsing, config: Config) returns (outcome: Outcome<InitError>)
      requires whitelist != null
      modifies whitelist
      ensures var run := Run(parsing, Entries(config, Additions + Removals));
        outcome == (if run.failure.Some? then Fail(run.failure.value) else Pass) &&
        whitelist.applied == old(whitelist.applied) + run.applied
    {
      ghost var start := whitelist.applied;
      ghost var adds, removes := Run(parsing, Entries(config, Additions)), Run(parsing, Entries(config, Removals));
      RunAllEntries(parsing, config);
      outcome := ApplyParameters(parsing, config, Additions);
      if outcome.Pass? {
        outcome := ApplyParameters(parsing, config, Removals);
        ConcatAssociative(start, adds.applied, removes.applied);
      }
    }

    /** addRestrictions or removeRestrictions: the values of each parameter
        in turn, stopping at the first that fails. */
    method ApplyParameters(parsing: Parsing, config: Config, ps: seq<Parameter>) returns (outcome: Outcome<InitError>)
      requires whitelist != null
      modifies whitelist
      ensures var run := Run(parsing, Entries(config, ps));
        outcome == (if run.failure.Some? then Fail(run.failure.value) else Pass) &&
        whitelist.applied == old(whitelist.applied) + run.applied
    {
      var start := whitelist.applied;
      ghost var done: seq<WhitelistOp> := [];
      var todo := ps;
      assert start + done == start;
      while todo != []
        invariant whitelist.applied == start + done
        invariant var rest := Run(parsing, Entries(config, todo));
          Run(parsing, Entries(config, ps)) == InitRun(done + rest.applied, rest.failure)
      {
        var p := todo[0];
        var values := GetValues(config, p);
        ghost var here := Run(parsing, Tagged(p, values));
        RunEntriesStep(parsing, config, todo);
        ConcatAssociative(start, done, here.applied);
        outcome := ApplyValues(parsing, p, values);
        if outcome.Fail? {
          return;
        }
        ConcatAssociative(done, here.applied, Run(parsing, Entries(config, todo[1..])).applied);
        done := done + here.applied;
        todo := todo[1..];
      }
      assert done + [] == done;
      outcome := Pass;
    }

    /** One parameter's values, applied in order until one is refused. */
    method ApplyValues(parsing: Parsing, p: Parameter, values: seq<string>) returns (outcome: Outcome<InitError>)
      requires whitelist != null
      modifies whitelist
      ensures var run := Run(parsing, Tagged(p, values));
        outcome == (if run.failure.Some? then Fail(run.failure.value) else Pass) &&
        whitelist.applied == old(whitelist.applied) + run.applied
    {
      var start := whitelist.applied;
      ghost var done: seq<WhitelistOp> := [];
      var j := 0;
      assert values[j..] == values;
      assert start + done == start;
      while j < |values|
        invariant 0 <= j <= |values|
        invariant whitelist.applied == start + done
        invariant var rest := Run(parsing, Tagged(p, values[j..]));
          Run(parsing, Tagged(p, values)) == InitRun(done + rest.applied, rest.failure)
      {
        RunTaggedFrom(parsing, p, values, j);
        match ParseEntry(parsing, p, values[j]) {
          case Err(e) =>
            assert done + [] == done;
            return Fail(e);
          case Ok(op) =>
            ConcatAssociative(done, [op], Run(parsing, Tagged(p, values[j + 1..])).applied);
            ConcatAssociative(start, done, [op]);
            whitelist.applied := whitelist.applied + [op];
            done := done + [op];
        }
        j := j + 1;
      }
      assert done + [] == done;
      outcome := Pass;
    }

    /** service: a multipart message has its parts sanitised, and an HTML
        message its text cleaned, with the whitelist as it is now; nothing
        else about the mail changes. */
    method Service(mail: Mail)
      requires whitelist != null && WellTyped(mail.message.body)
      modifies mail
      ensures mail.message == old(mail.message).(body := Sanitized(old(mail.message.body), clean, whitelist.State()))
      ensures mail.state == old(mail.state)
    {
      var body := mail.message.body;
      if IsMultipart(body.contentType) {
        var parts := SanitizeMultipart(body.content.parts);
        body := Part(body.contentType, Multipart(parts));
      }
      if IsHtml(body.contentType) {
        body := Part(body.contentType, Text(clean(body.content.text, whitelist.State())));
      }
      mail.message := mail.message.(body := body);
    }

    /** sanitizeMultipart: every part, from the first to the last. */
    method SanitizeMultipart(parts: seq<Part>) returns (r: seq<Part>)
      requires whitelist != null
      requires forall i :: 0 <= i < |parts| ==> WellTyped(parts[i])
      ensures r == SanitizedAll(parts, clean, whitelist.State())
      decreases parts
    {
      r := [];
      var i := 0;
      while i < |parts|
        invariant 0 <= i <= |parts|
        invariant |r| == i
        invariant forall k :: 0 <= k < i ==> r[k] == Sanitized(parts[k], clean, whitelist.State())
      {
        var q := SanitizeBodyPart(parts[i]);
        r := r + [q];
        i := i + 1;
      }
    }

    /** sanitizeBodyPart: an HTML part gets its text cleaned; a multipart part
        is walked. */
    method SanitizeBodyPart(p: Part) returns (q: Part)
      requires whitelist != null && WellTyped(p)
      ensures q == Sanitized(p, clean, whitelist.State())
      decreases p
    {
      q := p;
      if IsHtml(q.contentType) {
        q := Part(q.contentType, Text(clean(q.content.text, whitelist.State())));
      }
      if IsMultipart(q.contentType) {
        assert q == p;
        var parts := SanitizeMultipart(p.content.parts);
        q := Part(q.contentType, Multipart(parts));
      }
    }
  }

  // ---------------------------------------------------------------------------
  // Instances sharing a level

  /** Two instances of the mailet configured with the same level share that
      level's whitelist: after both inits, the first one's whitelist holds
      the second one's restrictions after its own, and no longer the
      whitelist its own configuration asks for. */
  method SharedLevelLeaks(clean: Cleaner, first: Config, second: Config)
    returns (a: SanitizeHtmlBodyPartsMailet, b: SanitizeHtmlBodyPartsMailet)
    requires Given(first, LevelKey) && Given(second, LevelKey) && LevelOf(second) == LevelOf(first)
    requires InitResult(AsWritten, first).Ok? && InitResult(AsWritten, second).Ok?
    ensures a.whitelist != null && a.whitelist == b.whitelist
    ensures a.whitelist.applied == InitResult(AsWritten, first).value.applied + InitResult(AsWritten, second).value.applied
    ensures InitResult(AsWritten, second).value.applied != [] ==>
      a.whitelist.State() != InitResult(AsWritten, first).value
  {
    var levels := new SanitizerLevels();
    ghost var shared := levels.Of(LevelOf(first).value);
    ghost var own, other := InitResult(AsWritten, first).value, InitResult(AsWritten, second).value;
    a := new SanitizeHtmlBodyPartsMailet(clean, levels);
    b := new SanitizeHtmlBodyPartsMailet(clean, levels);
    InitAtSharedLevel(a, first);
    assert a.whitelist == shared && shared.applied == own.applied;
    InitAtSharedLevel(b, second);
    assert a.whitelist == shared && shared.applied == own.applied + other.applied;
    assert other.applied != [] ==> |shared.applied| != |own.applied|;
  }

  /** An init with a configured level that succeeds: the mailet's whitelist
      is the level's shared one, which gains exactly the configured calls. */
  method InitAtSharedLevel(m: SanitizeHtmlBodyPartsMailet, config: Config)
    requires m.levels.Valid()
    requires Given(config, LevelKey) && InitResult(AsWritten, config).Ok?
    modifies m, m.levels.Objects()
    ensures m.whitelist == m.levels.Of(LevelOf(config).value)
    ensures m.levels.Of(LevelOf(config).value).applied
         == old(m.levels.Of(LevelOf(config).value).applied) + InitResult(AsWritten, config).value.applied
  {
    var outcome := m.Init(config);
  }

  /** With the corrected init, each instance keeps exactly the whitelist its
      configuration asks for, whatever the other is given. */
  method OwnWhitelistsIndependent(clean: Cleaner, first: Config, second: Config)
    returns (a: SanitizeHtmlBodyPartsMailet, b: SanitizeHtmlBodyPartsMailet)
    requires InitResult(Corrected, first).Ok? && InitResult(Corrected, second).Ok?
    ensures a.whitelist != null && a.whitelist.State() == InitResult(Corrected, first).value
    ensures b.whitelist != null && b.whitelist.State() == InitResult(Corrected, second).value
  {
    var levels := new SanitizerLevels();
    a := new SanitizeHtmlBodyPartsMailet(clean, levels);
    b := new SanitizeHtmlBodyPartsMailet(clean, levels);
    var outcome := a.InitWithOwnWhitelist(first);
    outcome := b.InitWithOwnWhitelist(second);
  }
}
