/**
 * The configuration of the SanitizeHtmlBodyParts mailet: the sanitizer level,
 * the comma-separated lists of the init parameters, the colon-separated
 * entries in them, and the whitelist changes that init makes from them.
 */
module SanitizerConfig {
  import opened Wrappers
  import opened JavaStrings

  const ATTRIBUTES_PROPERTY_INVALID: string := "Attributes not specified correctly for SanitizeHtmlBodyParts mailet"
  const ENFORCED_ATTRIBUTES_PROPERTY_INVALID: string := "Enforced attributes not specified correctly for SanitizeHtmlBodyParts mailet"
  const PROTOCOLS_PROPERTY_INVALID: string := "Protocols not specified correctly for SanitizeHtmlBodyParts mailet"
  const REMOVE_PROTOCOLS_PROPERTY_INVALID: string := "Remove protocols not specified correctly for SanitizeHtmlBodyParts mailet"
  const REMOVE_ENFORCED_ATTRIBUTES_PROPERTY_INVALID: string := "Remove enforced attributes not specified correctly for SanitizeHtmlBodyParts mailet"
  /** The message of the corrected removeAttributes parsing; the mailet itself
      has no such constant because it never splits these entries. */
  const REMOVE_ATTRIBUTES_PROPERTY_INVALID: string := "Remove attributes not specified correctly for SanitizeHtmlBodyParts mailet"

  // ---------------------------------------------------------------------------
  // Levels

  /** The predefined whitelists a configuration can start from. */
  datatype SanitizerLevel = BASIC | BASICWITHIMAGES | RELAXED | NONE | SIMPLETEXT

  /** The enum constant's name. */
  function LevelName(level: SanitizerLevel): string {
    match level
    case BASIC => "BASIC"
    case BASICWITHIMAGES => "BASICWITHIMAGES"
    case RELAXED => "RELAXED"
    case NONE => "NONE"
    case SIMPLETEXT => "SIMPLETEXT"
  }

  /** What init throws: an IllegalArgumentException from the enum lookup; the
      RuntimeException for an ill-formed entry of a parameter, whose message
      is InvalidMessage(parameter); or the IllegalArgumentException of the
      whitelist library when attributes are added or removed for a tag
      without naming any attribute. */
  datatype InitError =
    | UnknownLevel(name: string)
    | InvalidProperty(parameter: Parameter)
    | NoAttributeNames(tag: string)

  /** SanitizerLevel.valueOf: the constant of exactly that name, or the failure. */
  function ValueOf(name: string): (r: Result<SanitizerLevel, InitError>)
    ensures r.Ok? ==> LevelName(r.value) == name
    ensures r.Err? ==> r.error == UnknownLevel(name)
  {
    if name == "BASIC" then Ok(BASIC)
    else if name == "BASICWITHIMAGES" then Ok(BASICWITHIMAGES)
    else if name == "RELAXED" then Ok(RELAXED)
    else if name == "NONE" then Ok(NONE)
    else if name == "SIMPLETEXT" then Ok(SIMPLETEXT)
    else Err(UnknownLevel(name))
  }

  /** The init parameters the mailet reads: `level` and the eight lists. */
  datatype Key = LevelKey | ListKey(parameter: Parameter)
  {
    /** The name the parameter is written under in the mailet configuration. */
    function Name(): string {
      match this
      case LevelKey => "level"
      case ListKey(p) => p.Name()
    }
  }

  /** No two init parameters share a name, so a configuration keyed by
      parameter holds exactly what one keyed by name does. */
  lemma KeyNamesDistinct(a: Key, b: Key)
    requires a != b
    ensures a.Name() != b.Name()
  {
  }

  /** The init parameters of the mailet configuration, each under its key. */
  type Config = map<Key, string>

  /** Whether a parameter is given: present and not empty. An empty value
      counts as absent, as getInitParameterAsOptional of the mailet base
      class treats it. */
  predicate Given(config: Config, key: Key) {
    key in config && config[key] != ""
  }

  /** getInitParameterAsOptional: the value of a given parameter, else none. */
  function InitParameter(config: Config, key: Key): (value: Option<string>)
    ensures value.Some? <==> Given(config, key)
    ensures value.Some? ==> value.value == config[key] && value.value != ""
  {
    if Given(config, key) then Some(config[key]) else None
  }

  /** The level init starts from: the `level` parameter upper-cased and looked
      up, NONE when the parameter is absent or empty. */
  function LevelOf(config: Config): (level: Result<SanitizerLevel, InitError>)
    ensures !Given(config, LevelKey) ==> level == Ok(NONE)
    ensures Given(config, LevelKey) && level.Ok? ==> LevelName(level.value) == UpperCase(config[LevelKey])
    ensures level.Err? ==> Given(config, LevelKey) && level.error == UnknownLevel(UpperCase(config[LevelKey]))
  {
    match InitParameter(config, LevelKey)
    case None => Ok(NONE)
    case Some(name) => ValueOf(UpperCase(name))
  }

  /** Every level is found under its own name. */
  lemma LevelNameRoundTrip(level: SanitizerLevel)
    ensures ValueOf(LevelName(level)) == Ok(level)
  {
  }

  /** A level name written in any case selects that level. */
  lemma LevelOfAnyCase(config: Config, level: SanitizerLevel)
    requires Given(config, LevelKey)
    requires UpperCase(config[LevelKey]) == LevelName(level)
    ensures LevelOf(config) == Ok(level)
  {
    LevelNameRoundTrip(level);
  }

  /** Without a level, init starts from the empty whitelist. */
  lemma LevelAbsent(config: Config)
    requires !Given(config, LevelKey)
    ensures LevelOf(config) == Ok(NONE)
  {
  }

  /** The level `relaxed` is accepted, and `abcderfg` is refused under its
      upper-cased name. */
  lemma LevelExamples()
    ensures LevelOf(map[LevelKey := "relaxed"]) == Ok(RELAXED)
    ensures LevelOf(map[LevelKey := "abcderfg"]) == Err(UnknownLevel("ABCDERFG"))
    ensures LevelOf(map[LevelKey := ""]) == Ok(NONE)
  {
    LevelOfAnyCase(map[LevelKey := "relaxed"], RELAXED);
    assert UpperCase("abcderfg") == "ABCDERFG";
  }

  // ---------------------------------------------------------------------------
  // Comma-separated values

  /** Each piece stripped, the blank ones dropped. */
  function Cleaned(pieces: seq<string>): (values: seq<string>)
    ensures |values| <= |pieces|
    decreases |pieces|
  {
    if pieces == [] then []
    else
      var v := Strip(pieces[0]);
      if IsBlank(v) then Cleaned(pieces[1..]) else [v] + Cleaned(pieces[1..])
  }

  /** The values of one parameter: split on commas, stripped, blanks dropped. */
  function Values(all: string): (values: seq<string>)
    ensures |values| <= |JavaSplit(all, ',')|
  {
    Cleaned(JavaSplit(all, ','))
  }

  /** getValues: the values of a list parameter, none when it is absent. */
  function GetValues(config: Config, p: Parameter): (values: seq<string>)
    ensures ListKey(p) !in config ==> values == []
    ensures ListKey(p) in config ==> values == Values(config[ListKey(p)])
    ensures forall i :: 0 <= i < |values| ==>
      values[i] != "" && Strip(values[i]) == values[i] && ',' !in values[i]
  {
    match InitParameter(config, ListKey(p))
    case None =>
      if ListKey(p) in config then ValuesOfEmpty(config[ListKey(p)]); [] else []
    case Some(all) => ValuesShape(all); Values(all)
  }

  /** An empty list has no values. */
  lemma ValuesOfEmpty(all: string)
    requires all == ""
    ensures Values(all) == []
  {
  }

  /** Cleaning a concatenation cleans its halves. */
  lemma {:induction false} CleanedAppend(xs: seq<string>, ys: seq<string>)
    ensures Cleaned(xs + ys) == Cleaned(xs) + Cleaned(ys)
    decreases |xs|
  {
    if xs == [] {
      assert xs + ys == ys;
    } else {
      assert (xs + ys)[0] == xs[0];
      assert (xs + ys)[1..] == xs[1..] + ys;
      CleanedAppend(xs[1..], ys);
    }
  }

  /** Empty pieces leave nothing after cleaning. */
  lemma {:induction false} CleanedEmptyPieces(xs: seq<string>)
    requires forall i :: 0 <= i < |xs| ==> xs[i] == ""
    ensures Cleaned(xs) == []
    decreases |xs|
  {
    if xs != [] {
      var rest := xs[1..];
      assert Cleaned(xs) == Cleaned(rest) by {
        assert xs[0] == "";
        assert Strip(xs[0]) == "";
      }
      CleanedEmptyPieces(rest);
    }
  }

  /** Java's removal of trailing empty pieces makes no difference to the values. */
  lemma ValuesOfAllPieces(all: string)
    ensures Values(all) == Cleaned(SplitAll(all, ','))
  {
    var pieces := SplitAll(all, ',');
    DropTrailingEmptyShape(pieces);
    if ',' in all {
      var kept := DropTrailingEmpty(pieces);
      assert pieces == kept + pieces[|kept|..];
      CleanedAppend(kept, pieces[|kept|..]);
      CleanedEmptyPieces(pieces[|kept|..]);
    } else {
      SplitAllNoSeparator(all, ',');
    }
  }

  /** The values of two comma-joined lists are the values of each. */
  lemma ValuesAppend(a: string, b: string)
    ensures Values(a + "," + b) == Values(a) + Values(b)
  {
    ValuesOfAllPieces(a + "," + b);
    ValuesOfAllPieces(a);
    ValuesOfAllPieces(b);
    SplitAllAppend(a, b, ',');
    CleanedAppend(SplitAll(a, ','), SplitAll(b, ','));
  }

  /** The values of a list are those before and after any of its commas. */
  lemma ValuesSplitAt(all: string, k: nat)
    requires k < |all| && all[k] == ','
    ensures Values(all) == Values(all[..k]) + Values(all[k + 1..])
  {
    var before, after := all[..k], all[k + 1..];
    assert all == before + [all[k]] + after by {
      assert all == all[..k] + all[k..];
      assert all[k..] == [all[k]] + after;
    }
    ValuesAppend(before, after);
  }

  /** A list cut at one comma into two single values holds those two values. */
  lemma ValuesOfTwo(all: string, k: nat)
    requires k < |all| && all[k] == ','
    requires Values(all[..k]) == [all[..k]] && Values(all[k + 1..]) == [all[k + 1..]]
    ensures Values(all) == [all[..k], all[k + 1..]]
  {
    ValuesSplitAt(all, k);
  }

  /** A trailing comma adds no value (the enforced attributes in the tests end with one). */
  lemma ValuesTrailingComma(a: string)
    ensures Values(a + ",") == Values(a)
  {
    ValuesAppend(a, "");
    assert a + "," + "" == a + ",";
  }

  /** A list without commas is one value, stripped, or none when it is blank. */
  lemma ValuesOfOne(s: string)
    requires ',' !in s
    ensures Values(s) == if IsBlank(s) then [] else [Strip(s)]
  {
    StripEmptyIffBlank(s);
    StrippedBlankIffEmpty(s);
  }

  /** A list holding one value without commas or surrounding white space is that value. */
  lemma ValuesOfField(s: string)
    requires s != "" && ',' !in s && !IsWhitespace(s[0]) && !IsWhitespace(s[|s| - 1])
    ensures Values(s) == [s]
  {
    assert TrimLeading(s) == s;
    assert TrimTrailing(s) == s;
    ValuesOfOne(s);
  }

  /** Stripping takes a slice, so it adds no character. */
  lemma StripKeepsOut(s: string, c: char)
    requires c !in s
    ensures c !in Strip(s)
  {
    var t := TrimLeading(s);
    TrimLeadingShape(s);
    TrimTrailingShape(t);
    assert forall k :: 0 <= k < |t| ==> t[k] == s[|s| - |t| + k];
    var r := TrimTrailing(t);
    assert forall k :: 0 <= k < |r| ==> r[k] == t[k];
  }

  /** Every value is non-empty, without surrounding white space, and holds no comma. */
  lemma ValuesShape(all: string)
    ensures forall i :: 0 <= i < |Values(all)| ==>
      Values(all)[i] != "" && Strip(Values(all)[i]) == Values(all)[i] && ',' !in Values(all)[i]
  {
    JavaSplitPieces(all, ',');
    CleanedKeepsOut(JavaSplit(all, ','), ',');
    CleanedStripped(JavaSplit(all, ','));
    CleanedNonEmpty(JavaSplit(all, ','));
  }

  /** No cleaned value is empty. */
  lemma {:induction false} CleanedNonEmpty(pieces: seq<string>)
    ensures forall i :: 0 <= i < |Cleaned(pieces)| ==> Cleaned(pieces)[i] != ""
    decreases |pieces|
  {
    if pieces != [] {
      StrippedBlankIffEmpty(pieces[0]);
      CleanedNonEmpty(pieces[1..]);
    }
  }

  /** Cleaned values are already stripped. */
  lemma {:induction false} CleanedStripped(pieces: seq<string>)
    ensures forall i :: 0 <= i < |Cleaned(pieces)| ==> Strip(Cleaned(pieces)[i]) == Cleaned(pieces)[i]
    decreases |pieces|
  {
    if pieces != [] {
      var v, rest := Strip(pieces[0]), Cleaned(pieces[1..]);
      CleanedStripped(pieces[1..]);
      StripIdempotent(pieces[0]);
      if !IsBlank(v) {
        assert Cleaned(pieces) == [v] + rest;
        forall i | 0 <= i < |Cleaned(pieces)|
          ensures Strip(Cleaned(pieces)[i]) == Cleaned(pieces)[i]
        {
          if i > 0 {
            assert Cleaned(pieces)[i] == rest[i - 1];
          }
        }
      }
    }
  }

  /** A character that no piece holds, no cleaned value holds. */
  lemma {:induction false} CleanedKeepsOut(pieces: seq<string>, c: char)
    requires forall i :: 0 <= i < |pieces| ==> c !in pieces[i]
    ensures forall i :: 0 <= i < |Cleaned(pieces)| ==> c !in Cleaned(pieces)[i]
    decreases |pieces|
  {
    if pieces != [] {
      StripKeepsOut(pieces[0], c);
      CleanedKeepsOut(pieces[1..], c);
    }
  }

  // ---------------------------------------------------------------------------
  // Entries

  /** The eight list parameters init reads. */
  datatype Parameter =
    | TagsParameter | AttributesParameter | EnforcedAttributesParameter | ProtocolsParameter
    | RemoveTagsParameter | RemoveAttributesParameter | RemoveEnforcedAttributesParameter | RemoveProtocolsParameter
  {
    /** The parameter's name in the mailet configuration. */
    function Name(): string {
      match this
      case TagsParameter => "tags"
      case AttributesParameter => "attributes"
      case EnforcedAttributesParameter => "enforcedAttributes"
      case ProtocolsParameter => "protocols"
      case RemoveTagsParameter => "removeTags"
      case RemoveAttributesParameter => "removeAttributes"
      case RemoveEnforcedAttributesParameter => "removeEnforcedAttributes"
      case RemoveProtocolsParameter => "removeProtocols"
    }

    /** Whether the parameter takes restrictions away from the whitelist. */
    predicate IsRemoval() {
      RemoveTagsParameter? || RemoveAttributesParameter? || RemoveEnforcedAttributesParameter? || RemoveProtocolsParameter?
    }

    /** Whether its entries are split into fields and checked; tags are taken whole. */
    predicate IsChecked() {
      !(TagsParameter? || RemoveTagsParameter?)
    }

    /** Whether the corrected parsing reads its entries differently from the mailet. */
    predicate IsCorrected() {
      AttributesParameter? || EnforcedAttributesParameter? || RemoveAttributesParameter?
    }
  }

  /** The message of the exception thrown for an ill-formed entry of a parameter. */
  function InvalidMessage(p: Parameter): string
    requires p.IsChecked()
  {
    match p
    case AttributesParameter => ATTRIBUTES_PROPERTY_INVALID
    case EnforcedAttributesParameter => ENFORCED_ATTRIBUTES_PROPERTY_INVALID
    case ProtocolsParameter => PROTOCOLS_PROPERTY_INVALID
    case RemoveAttributesParameter => REMOVE_ATTRIBUTES_PROPERTY_INVALID
    case RemoveEnforcedAttributesParameter => REMOVE_ENFORCED_ATTRIBUTES_PROPERTY_INVALID
    case RemoveProtocolsParameter => REMOVE_PROTOCOLS_PROPERTY_INVALID
  }

  /** One call on the whitelist. */
  datatype WhitelistOp =
    | AddTags(tag: string)
    | AddAttributes(tag: string, attributes: seq<string>)
    | AddEnforcedAttribute(tag: string, attribute: string, value: string)
    | AddProtocols(tag: string, attribute: string, protocols: seq<string>)
    | RemoveTags(tag: string)
    | RemoveAttributes(tag: string, attributes: seq<string>)
    | RemoveEnforcedAttribute(tag: string, attribute: string)
    | RemoveProtocols(tag: string, attribute: string, protocols: seq<string>)
  {
    /** Whether the call takes a restriction away. */
    predicate IsRemoval() {
      RemoveTags? || RemoveAttributes? || RemoveEnforcedAttribute? || RemoveProtocols?
    }
  }

  /** What a whitelist amounts to: the level it started from and the calls
      made on it since. */
  datatype WhitelistState = WhitelistState(level: SanitizerLevel, applied: seq<WhitelistOp>)

  /** The `tag:attribute:protocol...` entries of `protocols`. */
  function ProtocolsEntry(entry: string): (r: Result<WhitelistOp, InitError>)
    ensures r.Ok? ==> r.value.AddProtocols? && ':' !in r.value.tag && ':' !in r.value.attribute
    ensures r.Err? ==> r.error == InvalidProperty(ProtocolsParameter)
  {
    var f := JavaSplit(entry, ':');
    if |f| < 2 then Err(InvalidProperty(ProtocolsParameter))
    else Ok(AddProtocols(f[0], f[1], f[2..]))
  }

  /** The `tag:attribute:protocol...` entries of `removeProtocols`. */
  function RemoveProtocolsEntry(entry: string): (r: Result<WhitelistOp, InitError>)
    ensures r.Ok? ==> r.value.RemoveProtocols? && ':' !in r.value.tag && ':' !in r.value.attribute
    ensures r.Err? ==> r.error == InvalidProperty(RemoveProtocolsParameter)
  {
    var f := JavaSplit(entry, ':');
    if |f| < 2 then Err(InvalidProperty(RemoveProtocolsParameter))
    else Ok(RemoveProtocols(f[0], f[1], f[2..]))
  }

  /** The `tag:attribute` entries of `removeEnforcedAttributes`; further fields are ignored. */
  function RemoveEnforcedAttributesEntry(entry: string): (r: Result<WhitelistOp, InitError>)
    ensures r.Ok? ==> r.value.RemoveEnforcedAttribute? && ':' !in r.value.tag && ':' !in r.value.attribute
    ensures r.Err? ==> r.error == InvalidProperty(RemoveEnforcedAttributesParameter)
  {
    var f := JavaSplit(entry, ':');
    if |f| < 2 then Err(InvalidProperty(RemoveEnforcedAttributesParameter))
    else Ok(RemoveEnforcedAttribute(f[0], f[1]))
  }

  /** `enforcedAttributes` as the mailet parses it: the value is the third
      colon-separated field only, so a value holding a colon is cut short. */
  function EnforcedAttributesEntryAsWritten(entry: string): (r: Result<WhitelistOp, InitError>)
    ensures r.Ok? ==> r.value.AddEnforcedAttribute? && ':' !in r.value.value
    ensures r.Err? ==> r.error == InvalidProperty(EnforcedAttributesParameter)
  {
    var f := JavaSplit(entry, ':');
    if |f| < 3 then Err(InvalidProperty(EnforcedAttributesParameter))
    else Ok(AddEnforcedAttribute(f[0], f[1], f[2]))
  }

  /** `enforcedAttributes` corrected: the entry is cut at its first two colons
      only (a split with limit 3), so the value keeps its own colons. */
  function EnforcedAttributesEntry(entry: string): Result<WhitelistOp, InitError> {
    var f := SplitAll(entry, ':');
    if |f| < 3 then Err(InvalidProperty(EnforcedAttributesParameter))
    else Ok(AddEnforcedAttribute(f[0], f[1], Join(f[2..], ':')))
  }

  /** `attributes` as the mailet parses it: only the tag is demanded, so a tag
      without any attribute passes the mailet's own check. */
  function AttributesEntryAsWritten(entry: string): (r: Result<WhitelistOp, InitError>)
    ensures r.Ok? ==> r.value.AddAttributes? && ':' !in r.value.tag
    ensures r.Err? ==> r.error == InvalidProperty(AttributesParameter)
  {
    var f := JavaSplit(entry, ':');
    if |f| < 1 then Err(InvalidProperty(AttributesParameter))
    else Ok(AddAttributes(f[0], f[1..]))
  }

  /** `attributes` corrected: a tag and at least one attribute. */
  function AttributesEntry(entry: string): Result<WhitelistOp, InitError> {
    var f := JavaSplit(entry, ':');
    if |f| < 2 then Err(InvalidProperty(AttributesParameter))
    else Ok(AddAttributes(f[0], f[1..]))
  }

  /** `removeAttributes` as the mailet passes it: the whole entry is the tag,
      with no attribute names. */
  function RemoveAttributesEntryAsWritten(entry: string): (r: Result<WhitelistOp, InitError>)
    ensures r.Ok? && r.value.RemoveAttributes? && r.value.tag == entry && r.value.attributes == []
    ensures r.Ok? && Accepted(r.value) == Err(NoAttributeNames(entry))
  {
    Ok(RemoveAttributes(entry, []))
  }

  /** `removeAttributes` corrected: `tag:attribute...` like the other lists. */
  function RemoveAttributesEntry(entry: string): Result<WhitelistOp, InitError> {
    var f := JavaSplit(entry, ':');
    if |f| < 2 then Err(InvalidProperty(RemoveAttributesParameter))
    else Ok(RemoveAttributes(f[0], f[1..]))
  }

  /** The two readings of the entries: the mailet's own, and the corrected
      one of the findings. */
  datatype Parsing = AsWritten | Corrected

  /** The whitelist call one value of a parameter asks for, or the mailet's
      failure for an ill-formed value. */
  function EntryCall(parsing: Parsing, p: Parameter, entry: string): (r: Result<WhitelistOp, InitError>)
    ensures r.Ok? ==> r.value.IsRemoval() == p.IsRemoval()
    ensures r.Err? ==> r.error == InvalidProperty(p) && p.IsChecked()
  {
    match p
    case TagsParameter => Ok(AddTags(entry))
    case AttributesParameter =>
      if parsing.AsWritten? then AttributesEntryAsWritten(entry) else AttributesEntry(entry)
    case EnforcedAttributesParameter =>
      if parsing.AsWritten? then EnforcedAttributesEntryAsWritten(entry) else EnforcedAttributesEntry(entry)
    case ProtocolsParameter => ProtocolsEntry(entry)
    case RemoveTagsParameter => Ok(RemoveTags(entry))
    case RemoveAttributesParameter =>
      if parsing.AsWritten? then RemoveAttributesEntryAsWritten(entry) else RemoveAttributesEntry(entry)
    case RemoveEnforcedAttributesParameter => RemoveEnforcedAttributesEntry(entry)
    case RemoveProtocolsParameter => RemoveProtocolsEntry(entry)
  }

  /** The one argument check of the whitelist library that the entries can
      reach: adding or removing attributes of a tag needs at least one
      attribute name. */
  function Accepted(op: WhitelistOp): Result<WhitelistOp, InitError> {
    if (op.AddAttributes? || op.RemoveAttributes?) && op.attributes == [] then Err(NoAttributeNames(op.tag))
    else Ok(op)
  }

  /** What one value of a parameter does to the whitelist: the call it makes,
      or what init throws for it, from the mailet's check of its fields or
      from the library's check of the call. */
  function ParseEntry(parsing: Parsing, p: Parameter, entry: string): (r: Result<WhitelistOp, InitError>)
    ensures r.Ok? ==> r.value.IsRemoval() == p.IsRemoval()
    ensures r.Ok? && (r.value.AddAttributes? || r.value.RemoveAttributes?) ==> r.value.attributes != []
    ensures r.Err? ==> r.error.InvalidProperty? || r.error.NoAttributeNames?
    ensures r.Err? && r.error.InvalidProperty? ==> r.error.parameter == p && p.IsChecked()
    ensures r.Err? && r.error.NoAttributeNames? ==>
      parsing.AsWritten? && (p.AttributesParameter? || p.RemoveAttributesParameter?)
  {
    match EntryCall(parsing, p, entry)
    case Err(e) => Err(e)
    case Ok(op) => Accepted(op)
  }

  /** The two parsings differ only on the lists the findings are about. */
  lemma ParsingsAgree(p: Parameter, entry: string)
    requires !p.IsCorrected()
    ensures ParseEntry(AsWritten, p, entry) == ParseEntry(Corrected, p, entry)
  {
  }

  /** A field as the entries need one: non-empty and without a colon. */
  predicate IsField(s: string) {
    s != "" && ':' !in s
  }

  /** Fields joined with colons split back into those fields. */
  lemma FieldsRoundTrip(fields: seq<string>)
    requires |fields| >= 1 && forall i :: 0 <= i < |fields| ==> IsField(fields[i])
    ensures JavaSplit(Join(fields, ':'), ':') == fields
  {
    JavaSplitJoin(fields, ':');
  }

  /** Protocol entries read back the tag, attribute and protocols written into them. */
  lemma ProtocolsEntryRoundTrip(fields: seq<string>)
    requires |fields| >= 2 && forall i :: 0 <= i < |fields| ==> IsField(fields[i])
    ensures ProtocolsEntry(Join(fields, ':')) == Ok(AddProtocols(fields[0], fields[1], fields[2..]))
    ensures RemoveProtocolsEntry(Join(fields, ':')) == Ok(RemoveProtocols(fields[0], fields[1], fields[2..]))
  {
    FieldsRoundTrip(fields);
  }

  /** A protocol entry with a tag alone is refused, each list with its own message. */
  lemma ProtocolsEntryTagAlone(tag: string)
    requires IsField(tag)
    ensures ProtocolsEntry(tag) == Err(InvalidProperty(ProtocolsParameter))
    ensures RemoveProtocolsEntry(tag) == Err(InvalidProperty(RemoveProtocolsParameter))
  {
    FieldsRoundTrip([tag]);
  }

  /** Enforced attribute removals read back their tag and attribute; a tag alone is refused. */
  lemma RemoveEnforcedAttributesEntryFields(tag: string, attribute: string)
    requires IsField(tag) && IsField(attribute)
    ensures RemoveEnforcedAttributesEntry(tag + ":" + attribute) == Ok(RemoveEnforcedAttribute(tag, attribute))
    ensures RemoveEnforcedAttributesEntry(tag) == Err(InvalidProperty(RemoveEnforcedAttributesParameter))
  {
    FieldsRoundTrip([tag, attribute]);
    assert Join([tag, attribute], ':') == tag + ":" + attribute;
    FieldsRoundTrip([tag]);
  }

  /** The corrected enforced attribute keeps the whole value, colons included. */
  lemma EnforcedAttributesEntryRoundTrip(tag: string, attribute: string, value: string)
    requires IsField(tag) && IsField(attribute)
    ensures EnforcedAttributesEntry(tag + ":" + attribute + ":" + value) == Ok(AddEnforcedAttribute(tag, attribute, value))
  {
    var rest := attribute + [':'] + value;
    assert tag + ":" + attribute + ":" + value == tag + [':'] + rest by {
      ConcatAssociative(tag + [':'], attribute + [':'], value);
      ConcatAssociative(tag + [':'], attribute, [':']);
    }
    SplitAllNoSeparator(tag, ':');
    SplitAllNoSeparator(attribute, ':');
    SplitAllAppend(attribute, value, ':');
    SplitAllAppend(tag, rest, ':');
    var f := SplitAll(tag + ":" + attribute + ":" + value, ':');
    assert f == [tag, attribute] + SplitAll(value, ':');
    assert f[2..] == SplitAll(value, ':');
    JoinSplitAll(value, ':');
  }

  /** Both parsings refuse a tag and attribute without a value. */
  lemma EnforcedAttributesEntryTooFew(tag: string, attribute: string)
    requires IsField(tag) && IsField(attribute)
    ensures EnforcedAttributesEntry(tag + ":" + attribute) == Err(InvalidProperty(EnforcedAttributesParameter))
    ensures EnforcedAttributesEntryAsWritten(tag + ":" + attribute) == Err(InvalidProperty(EnforcedAttributesParameter))
  {
    FieldsRoundTrip([tag, attribute]);
    assert Join([tag, attribute], ':') == tag + ":" + attribute;
    SplitAllNoSeparator(tag, ':');
    SplitAllNoSeparator(attribute, ':');
    SplitAllAppend(tag, attribute, ':');
    assert tag + ":" + attribute == tag + [':'] + attribute;
  }

  /** As written, a value holding a colon keeps only its part before the
      colon: `scheme:rest` becomes `scheme`. */
  lemma EnforcedAttributesEntryAsWrittenCutsValue(tag: string, attribute: string, scheme: string, rest: string)
    requires IsField(tag) && IsField(attribute) && IsField(scheme) && IsField(rest)
    ensures EnforcedAttributesEntryAsWritten(tag + ":" + attribute + ":" + scheme + ":" + rest)
         == Ok(AddEnforcedAttribute(tag, attribute, scheme))
    ensures EnforcedAttributesEntry(tag + ":" + attribute + ":" + scheme + ":" + rest)
         == Ok(AddEnforcedAttribute(tag, attribute, scheme + ":" + rest))
  {
    FieldsRoundTrip([tag, attribute, scheme, rest]);
    assert Join([tag, attribute, scheme, rest], ':') == tag + ":" + attribute + ":" + scheme + ":" + rest by {
      assert Join([rest], ':') == rest;
      assert Join([scheme, rest], ':') == scheme + ":" + rest;
      assert Join([attribute, scheme, rest], ':') == attribute + ":" + scheme + ":" + rest;
    }
    EnforcedAttributesEntryRoundTrip(tag, attribute, scheme + ":" + rest);
    assert tag + ":" + attribute + ":" + (scheme + ":" + rest) == tag + ":" + attribute + ":" + scheme + ":" + rest;
  }

  /** The enforced attribute of the mailet's tests, `a:href:https://www.example.com`,
      gets the value `https` as written and the whole URL once corrected. */
  lemma EnforcedAttributesExample(entry: string)
    requires entry == "a:href:https://www.example.com"
    ensures EnforcedAttributesEntryAsWritten(entry) == Ok(AddEnforcedAttribute("a", "href", "https"))
    ensures EnforcedAttributesEntry(entry) == Ok(AddEnforcedAttribute("a", "href", "https://www.example.com"))
  {
    EnforcedAttributesExampleParts(entry, "https", "//www.example.com");
    EnforcedAttributesExampleUrl("https", "//www.example.com");
    EnforcedAttributesExampleFields("https", "//www.example.com");
    EnforcedAttributesEntryAsWrittenCutsValue("a", "href", "https", "//www.example.com");
  }

  /** The URL of the mailet's tests splits at its first colon into a scheme and a rest. */
  lemma EnforcedAttributesExampleParts(entry: string, scheme: string, rest: string)
    requires entry == "a:href:https://www.example.com"
    requires scheme == "https" && rest == "//www.example.com"
    ensures entry == "a" + ":" + "href" + ":" + scheme + ":" + rest
  {
  }

  /** The scheme and the rest of the tests' URL, joined at a colon, give the URL back. */
  lemma EnforcedAttributesExampleUrl(scheme: string, rest: string)
    requires scheme == "https" && rest == "//www.example.com"
    ensures scheme + ":" + rest == "https://www.example.com"
  {
  }

  /** The pieces of the tests' enforced attribute are fields. */
  lemma EnforcedAttributesExampleFields(scheme: string, rest: string)
    requires scheme == "https" && rest == "//www.example.com"
    ensures IsField("a") && IsField("href") && IsField(scheme) && IsField(rest)
  {
  }

  /** Attribute entries read back their tag and attributes, under both parsings. */
  lemma AttributesEntryRoundTrip(fields: seq<string>)
    requires |fields| >= 2 && forall i :: 0 <= i < |fields| ==> IsField(fields[i])
    ensures AttributesEntry(Join(fields, ':')) == Ok(AddAttributes(fields[0], fields[1..]))
    ensures AttributesEntryAsWritten(Join(fields, ':')) == Ok(AddAttributes(fields[0], fields[1..]))
  {
    FieldsRoundTrip(fields);
  }

  /** A tag without attributes, such as `img`, is refused once corrected but
      passes the mailet's check as written, with no attribute names. */
  lemma AttributesEntryTagAlone(tag: string)
    requires IsField(tag)
    ensures AttributesEntry(tag) == Err(InvalidProperty(AttributesParameter))
    ensures AttributesEntryAsWritten(tag) == Ok(AddAttributes(tag, []))
  {
    FieldsRoundTrip([tag]);
    assert JavaSplit(tag, ':') == [tag];
    assert [tag][1..] == [];
  }

  /** As written, the mailet's own attributes check fails only for an entry of
      colons alone. */
  lemma AttributesEntryAsWrittenRefusesOnlyColons(entry: string)
    ensures AttributesEntryAsWritten(entry).Err? <==> (entry != "" && forall i :: 0 <= i < |entry| ==> entry[i] == ':')
  {
    JavaSplitEmptyIffOnlySeparators(entry, ':');
  }

  /** `removeAttributes` entries: corrected, the fields are read back; as
      written the whole `tag:attribute` text becomes the tag, with no attribute. */
  lemma RemoveAttributesEntryRoundTrip(fields: seq<string>)
    requires |fields| >= 2 && forall i :: 0 <= i < |fields| ==> IsField(fields[i])
    ensures RemoveAttributesEntry(Join(fields, ':')) == Ok(RemoveAttributes(fields[0], fields[1..]))
    ensures RemoveAttributesEntryAsWritten(Join(fields, ':')) == Ok(RemoveAttributes(Join(fields, ':'), []))
    ensures RemoveAttributesEntryAsWritten(Join(fields, ':')).value.tag != fields[0]
  {
    FieldsRoundTrip(fields);
    assert |Join(fields, ':')| > |fields[0]|;
  }

  /** A tag alone is refused by the corrected `removeAttributes` parsing. */
  lemma RemoveAttributesEntryTagAlone(tag: string)
    requires IsField(tag)
    ensures RemoveAttributesEntry(tag) == Err(InvalidProperty(RemoveAttributesParameter))
  {
    FieldsRoundTrip([tag]);
  }

  /** As written, every `removeAttributes` value makes init fail: the whole
      value reaches the library as a tag without attribute names, which it
      refuses. */
  lemma RemoveAttributesRefusedAsWritten(entry: string)
    ensures ParseEntry(AsWritten, RemoveAttributesParameter, entry) == Err(NoAttributeNames(entry))
  {
  }

  /** Corrected, a `removeAttributes` value `tag:attribute...` removes those
      attributes of the tag. */
  lemma RemoveAttributesAccepted(fields: seq<string>)
    requires |fields| >= 2 && forall i :: 0 <= i < |fields| ==> IsField(fields[i])
    ensures ParseEntry(Corrected, RemoveAttributesParameter, Join(fields, ':'))
         == Ok(RemoveAttributes(fields[0], fields[1..]))
  {
    RemoveAttributesEntryRoundTrip(fields);
    RemoveAttributesCallAccepted(Join(fields, ':'), fields[0], fields[1..]);
  }

  /** A `removeAttributes` call that names attributes passes the library's check. */
  lemma RemoveAttributesCallAccepted(entry: string, tag: string, attributes: seq<string>)
    requires attributes != [] && RemoveAttributesEntry(entry) == Ok(RemoveAttributes(tag, attributes))
    ensures ParseEntry(Corrected, RemoveAttributesParameter, entry) == Ok(RemoveAttributes(tag, attributes))
  {
  }

  /** A tag alone in `attributes`, such as `img`: as written it passes the
      mailet's check and the library refuses the call; corrected, the mailet
      refuses it itself. */
  lemma AttributesTagAloneRefused(tag: string)
    requires IsField(tag)
    ensures ParseEntry(AsWritten, AttributesParameter, tag) == Err(NoAttributeNames(tag))
    ensures ParseEntry(Corrected, AttributesParameter, tag) == Err(InvalidProperty(AttributesParameter))
  {
    AttributesEntryTagAlone(tag);
  }

  /** A tag with attributes in `attributes` adds them under both parsings. */
  lemma AttributesEntryAccepted(fields: seq<string>)
    requires |fields| >= 2 && forall i :: 0 <= i < |fields| ==> IsField(fields[i])
    ensures ParseEntry(AsWritten, AttributesParameter, Join(fields, ':')) == Ok(AddAttributes(fields[0], fields[1..]))
    ensures ParseEntry(Corrected, AttributesParameter, Join(fields, ':')) == Ok(AddAttributes(fields[0], fields[1..]))
  {
    AttributesEntryRoundTrip(fields);
  }

  // ---------------------------------------------------------------------------
  // What init does

  /** The order in which init reads the lists: additions, then removals. */
  const Additions: seq<Parameter> := [TagsParameter, AttributesParameter, EnforcedAttributesParameter, ProtocolsParameter]
  const Removals: seq<Parameter> := [RemoveTagsParameter, RemoveAttributesParameter, RemoveEnforcedAttributesParameter, RemoveProtocolsParameter]

  /** One value of one parameter. */
  datatype Entry = Entry(parameter: Parameter, value: string)

  /** The values of one parameter, each marked with the parameter. */
  function Tagged(p: Parameter, values: seq<string>): (entries: seq<Entry>)
    ensures |entries| == |values|
    ensures forall i :: 0 <= i < |values| ==> entries[i] == Entry(p, values[i])
    decreases |values|
  {
    if values == [] then [] else [Entry(p, values[0])] + Tagged(p, values[1..])
  }

  /** The values of the parameters, in the order init reads them. */
  function Entries(config: Config, ps: seq<Parameter>): seq<Entry>
    decreases |ps|
  {
    if ps == [] then [] else Tagged(ps[0], GetValues(config, ps[0])) + Entries(config, ps[1..])
  }

  /** The whitelist calls made before the first failure, and that failure. */
  datatype InitRun = InitRun(applied: seq<WhitelistOp>, failure: Option<InitError>)

  /** Parses and applies the entries in order, stopping at the first failure. */
  function Run(parsing: Parsing, entries: seq<Entry>): (run: InitRun)
    ensures |run.applied| <= |entries|
    decreases |entries|
  {
    if entries == [] then InitRun([], None)
    else match ParseEntry(parsing, entries[0].parameter, entries[0].value)
      case Err(e) => InitRun([], Some(e))
      case Ok(op) =>
        var rest := Run(parsing, entries[1..]);
        InitRun([op] + rest.applied, rest.failure)
  }

  /** A run applies the parse of each entry in turn; it applies them all when
      it succeeds, and otherwise fails with the error of the first entry that
      does not parse. */
  lemma {:induction false} RunMeaning(parsing: Parsing, entries: seq<Entry>)
    ensures var run := Run(parsing, entries);
      forall i :: 0 <= i < |run.applied| ==> ParseEntry(parsing, entries[i].parameter, entries[i].value) == Ok(run.applied[i])
    ensures var run := Run(parsing, entries);
      run.failure.None? ==> |run.applied| == |entries|
    ensures var run := Run(parsing, entries);
      run.failure.Some? ==>
        |run.applied| < |entries| &&
        ParseEntry(parsing, entries[|run.applied|].parameter, entries[|run.applied|].value) == Err(run.failure.value)
    decreases |entries|
  {
    if entries != [] {
      RunMeaning(parsing, entries[1..]);
      var run := Run(parsing, entries);
      if ParseEntry(parsing, entries[0].parameter, entries[0].value).Ok? {
        forall i | 0 <= i < |run.applied|
          ensures ParseEntry(parsing, entries[i].parameter, entries[i].value) == Ok(run.applied[i])
        {
          if i > 0 {
            assert entries[i] == entries[1..][i - 1];
          }
        }
      }
    }
  }

  /** What init leaves when it starts from a whitelist of its own: the
      configured whitelist, or the failure it throws. */
  function InitResult(parsing: Parsing, config: Config): (r: Result<WhitelistState, InitError>)
    ensures LevelOf(config).Err? ==> r == Err(LevelOf(config).error)
    ensures r.Ok? ==>
      r.value.level == LevelOf(config).value && |r.value.applied| == |Entries(config, Additions + Removals)|
  {
    RunMeaning(parsing, Entries(config, Additions + Removals));
    match LevelOf(config)
    case Err(e) => Err(e)
    case Ok(level) =>
      var run := Run(parsing, Entries(config, Additions + Removals));
      if run.failure.Some? then Err(run.failure.value) else Ok(WhitelistState(level, run.applied))
  }

  /** Running two lists of entries runs the second only when the first succeeds. */
  lemma {:induction false} RunAppend(parsing: Parsing, xs: seq<Entry>, ys: seq<Entry>)
    ensures Run(parsing, xs + ys) == if Run(parsing, xs).failure.Some? then Run(parsing, xs)
                            else InitRun(Run(parsing, xs).applied + Run(parsing, ys).applied, Run(parsing, ys).failure)
    decreases |xs|
  {
    if xs == [] {
      assert xs + ys == ys;
    } else {
      assert (xs + ys)[0] == xs[0];
      assert (xs + ys)[1..] == xs[1..] + ys;
      RunAppend(parsing, xs[1..], ys);
      var r := Run(parsing, xs[1..]);
      if ParseEntry(parsing, xs[0].parameter, xs[0].value).Ok? && r.failure.None? {
        var op := ParseEntry(parsing, xs[0].parameter, xs[0].value).value;
        assert [op] + (r.applied + Run(parsing, ys).applied) == ([op] + r.applied) + Run(parsing, ys).applied;
      }
    }
  }

  /** The entries of consecutive parameter lists are consecutive. */
  lemma {:induction false} EntriesAppend(config: Config, ps: seq<Parameter>, qs: seq<Parameter>)
    ensures Entries(config, ps + qs) == Entries(config, ps) + Entries(config, qs)
    decreases |ps|
  {
    if ps == [] {
      assert ps + qs == qs;
    } else {
      var head := Tagged(ps[0], GetValues(config, ps[0]));
      var rest, tail := Entries(config, ps[1..]), Entries(config, qs);
      assert (ps + qs)[0] == ps[0];
      assert (ps + qs)[1..] == ps[1..] + qs;
      EntriesAppend(config, ps[1..], qs);
      calc {
        Entries(config, ps + qs);
        head + Entries(config, ps[1..] + qs);
        head + (rest + tail);
        { ConcatAssociative(head, rest, tail); }
        (head + rest) + tail;
      }
    }
  }

  /** Init runs the additions and, only when they all succeed, the removals. */
  lemma RunAllEntries(parsing: Parsing, config: Config)
    ensures var adds, removes := Run(parsing, Entries(config, Additions)), Run(parsing, Entries(config, Removals));
      Run(parsing, Entries(config, Additions + Removals))
      == if adds.failure.Some? then adds else InitRun(adds.applied + removes.applied, removes.failure)
  {
    RunOfEntriesAppend(parsing, config, Additions, Removals);
  }

  /** Running the entries of two parameter lists runs the second list only
      when the first succeeds. */
  lemma RunOfEntriesAppend(parsing: Parsing, config: Config, ps: seq<Parameter>, qs: seq<Parameter>)
    ensures var first, second := Run(parsing, Entries(config, ps)), Run(parsing, Entries(config, qs));
      Run(parsing, Entries(config, ps + qs))
      == if first.failure.Some? then first else InitRun(first.applied + second.applied, second.failure)
  {
    EntriesAppend(config, ps, qs);
    RunAppend(parsing, Entries(config, ps), Entries(config, qs));
  }

  /** Running the entries of a non-empty parameter list runs its first
      parameter's values, and the later parameters only when they all succeed. */
  lemma RunEntriesStep(parsing: Parsing, config: Config, ps: seq<Parameter>)
    requires ps != []
    ensures var here, later := Run(parsing, Tagged(ps[0], GetValues(config, ps[0]))), Run(parsing, Entries(config, ps[1..]));
      Run(parsing, Entries(config, ps))
      == if here.failure.Some? then here else InitRun(here.applied + later.applied, later.failure)
  {
    RunAppend(parsing, Tagged(ps[0], GetValues(config, ps[0])), Entries(config, ps[1..]));
  }

  /** Running a parameter's values from the j-th on parses that value first,
      and goes on only when it is well formed. */
  lemma RunTaggedFrom(parsing: Parsing, p: Parameter, values: seq<string>, j: nat)
    requires j < |values|
    ensures var later := Run(parsing, Tagged(p, values[j + 1..]));
      Run(parsing, Tagged(p, values[j..]))
      == match ParseEntry(parsing, p, values[j])
         case Err(e) => InitRun([], Some(e))
         case Ok(op) => InitRun([op] + later.applied, later.failure)
  {
    assert values[j..][1..] == values[j + 1..];
  }

  /** Every entry is a value of one of the parameters read. */
  lemma {:induction false} EntriesFrom(config: Config, ps: seq<Parameter>)
    ensures forall k :: 0 <= k < |Entries(config, ps)| ==>
      Entries(config, ps)[k].parameter in ps && Entries(config, ps)[k].value in GetValues(config, Entries(config, ps)[k].parameter)
    decreases |ps|
  {
    if ps != [] {
      EntriesFrom(config, ps[1..]);
      var head, rest := Tagged(ps[0], GetValues(config, ps[0])), Entries(config, ps[1..]);
      var es := Entries(config, ps);
      forall k | 0 <= k < |es|
        ensures es[k].parameter in ps && es[k].value in GetValues(config, es[k].parameter)
      {
        if k < |head| {
          assert es[k] == head[k];
        } else {
          assert es[k] == rest[k - |head|];
        }
      }
    }
  }

  /** Running entries that add and then entries that remove never applies an
      addition after a removal. */
  lemma RunKeepsOrder(parsing: Parsing, xs: seq<Entry>, ys: seq<Entry>)
    requires forall k :: 0 <= k < |xs| ==> !xs[k].parameter.IsRemoval()
    requires forall k :: 0 <= k < |ys| ==> ys[k].parameter.IsRemoval()
    ensures var run := Run(parsing, xs + ys);
      forall i, j :: 0 <= i < j < |run.applied| && run.applied[i].IsRemoval() ==> run.applied[j].IsRemoval()
  {
    var entries := xs + ys;
    var run := Run(parsing, entries);
    RunMeaning(parsing, entries);
    assert forall k :: 0 <= k < |xs| ==> entries[k] == xs[k];
    assert forall k :: |xs| <= k < |entries| ==> entries[k] == ys[k - |xs|];
    forall i, j | 0 <= i < j < |run.applied| && run.applied[i].IsRemoval()
      ensures run.applied[j].IsRemoval()
    {
      assert ParseEntry(parsing, entries[i].parameter, entries[i].value) == Ok(run.applied[i]);
      assert ParseEntry(parsing, entries[j].parameter, entries[j].value) == Ok(run.applied[j]);
    }
  }

  /** Reading parameters that add and then parameters that remove never
      applies an addition after a removal. */
  lemma EntriesKeepOrder(parsing: Parsing, config: Config, ps: seq<Parameter>, qs: seq<Parameter>)
    requires forall k :: 0 <= k < |ps| ==> !ps[k].IsRemoval()
    requires forall k :: 0 <= k < |qs| ==> qs[k].IsRemoval()
    ensures var run := Run(parsing, Entries(config, ps + qs));
      forall i, j :: 0 <= i < j < |run.applied| && run.applied[i].IsRemoval() ==> run.applied[j].IsRemoval()
  {
    EntriesAppend(config, ps, qs);
    EntriesFrom(config, ps);
    EntriesFrom(config, qs);
    RunKeepsOrder(parsing, Entries(config, ps), Entries(config, qs));
  }

  /** Init never adds a restriction after it has removed one. */
  lemma AdditionsBeforeRemovals(parsing: Parsing, config: Config)
    ensures var run := Run(parsing, Entries(config, Additions + Removals));
      forall i, j :: 0 <= i < j < |run.applied| && run.applied[i].IsRemoval() ==> run.applied[j].IsRemoval()
  {
    EntriesKeepOrder(parsing, config, Additions, Removals);
  }

  /** Entries of the lists the findings leave alone run alike under both parsings. */
  lemma {:induction false} RunsAgree(entries: seq<Entry>)
    requires forall k :: 0 <= k < |entries| ==> !entries[k].parameter.IsCorrected()
    ensures Run(AsWritten, entries) == Run(Corrected, entries)
    decreases |entries|
  {
    if entries != [] {
      ParsingsAgree(entries[0].parameter, entries[0].value);
      RunsAgree(entries[1..]);
    }
  }

  /** A configuration with no value under `attributes`, `enforcedAttributes`
      or `removeAttributes` initialises alike under both parsings. */
  lemma InitResultsAgree(config: Config)
    requires forall p: Parameter :: p.IsCorrected() ==> GetValues(config, p) == []
    ensures InitResult(AsWritten, config) == InitResult(Corrected, config)
  {
    EntriesFrom(config, Additions + Removals);
    RunsAgree(Entries(config, Additions + Removals));
  }

  /** Parameters without values contribute no entries. */
  lemma {:induction false} EntriesOfEmpty(config: Config, ps: seq<Parameter>)
    requires forall q :: q in ps ==> GetValues(config, q) == []
    ensures Entries(config, ps) == []
    decreases |ps|
  {
    if ps != [] {
      assert ps[0] in ps;
      EntriesOfEmpty(config, ps[1..]);
    }
  }

  /** When one parameter of a list has values and the others none, its
      values are the entries. */
  lemma {:induction false} EntriesOfOne(config: Config, ps: seq<Parameter>, p: Parameter, values: seq<string>)
    requires p in ps
    requires forall q :: q in ps ==> GetValues(config, q) == if q == p then values else []
    requires forall i, j :: 0 <= i < j < |ps| ==> ps[i] != ps[j]
    ensures Entries(config, ps) == Tagged(p, values)
    decreases |ps|
  {
    assert ps[0] in ps;
    if ps[0] == p {
      forall q | q in ps[1..] ensures q != p {
        var j :| 0 <= j < |ps[1..]| && ps[1..][j] == q;
        assert ps[0] != ps[j + 1];
      }
      EntriesOfEmpty(config, ps[1..]);
      assert Tagged(p, values) + [] == Tagged(p, values);
    } else {
      EntriesOfOne(config, ps[1..], p, values);
    }
  }

  /** Two lists that each have one parameter with a single value give those
      two values, in order. */
  lemma EntriesOfTwoSingles(config: Config, ps: seq<Parameter>, qs: seq<Parameter>, p: Parameter, q: Parameter, value: string)
    requires p in ps && q in qs
    requires forall r :: r in ps ==> GetValues(config, r) == if r == p then [value] else []
    requires forall r :: r in qs ==> GetValues(config, r) == if r == q then [value] else []
    requires forall i, j :: 0 <= i < j < |ps| ==> ps[i] != ps[j]
    requires forall i, j :: 0 <= i < j < |qs| ==> qs[i] != qs[j]
    ensures Entries(config, ps + qs) == [Entry(p, value), Entry(q, value)]
  {
    EntriesOfOne(config, ps, p, [value]);
    EntriesOfOne(config, qs, q, [value]);
    assert Tagged(p, [value]) == [Entry(p, value)] && Tagged(q, [value]) == [Entry(q, value)];
    EntriesAppend(config, ps, qs);
  }

  /** The lists of a configuration whose only values are one entry in
      `protocols` and the same entry in `removeProtocols`, split into the
      lists init reads first and those it reads second. */
  lemma ProtocolsOnlyLists(config: Config, entry: string)
    requires forall p: Parameter ::
      GetValues(config, p) == if p == ProtocolsParameter || p == RemoveProtocolsParameter then [entry] else []
    ensures forall r :: r in Additions ==> GetValues(config, r) == if r == ProtocolsParameter then [entry] else []
    ensures forall r :: r in Removals ==> GetValues(config, r) == if r == RemoveProtocolsParameter then [entry] else []
  {
  }

  /** No parameter is read twice in either list. */
  lemma ListsDistinct()
    ensures forall i, j :: 0 <= i < j < |Additions| ==> Additions[i] != Additions[j]
    ensures forall i, j :: 0 <= i < j < |Removals| ==> Removals[i] != Removals[j]
  {
  }

  /** Adding protocols and then removing the same ones succeeds. */
  lemma AddThenRemoveProtocolsRun(parsing: Parsing, entry: string)
    requires |JavaSplit(entry, ':')| >= 2
    ensures var f := JavaSplit(entry, ':');
      Run(parsing, [Entry(ProtocolsParameter, entry), Entry(RemoveProtocolsParameter, entry)])
      == InitRun([AddProtocols(f[0], f[1], f[2..]), RemoveProtocols(f[0], f[1], f[2..])], None)
  {
    var add, remove := Entry(ProtocolsParameter, entry), Entry(RemoveProtocolsParameter, entry);
    assert [add, remove] == [add] + [remove];
    RunAppend(parsing, [add], [remove]);
    assert [add][1..] == [] && [remove][1..] == [];
  }

  /** A configuration without a level whose only list values are one entry in
      `protocols` and the same entry in `removeProtocols` initialises, adding
      the protocols and then removing them again. */
  lemma AddThenRemoveProtocols(parsing: Parsing, config: Config, entry: string)
    requires !Given(config, LevelKey)
    requires forall p: Parameter ::
      GetValues(config, p) == if p == ProtocolsParameter || p == RemoveProtocolsParameter then [entry] else []
    requires |JavaSplit(entry, ':')| >= 2
    ensures var f := JavaSplit(entry, ':');
      InitResult(parsing, config) == Ok(WhitelistState(NONE, [AddProtocols(f[0], f[1], f[2..]), RemoveProtocols(f[0], f[1], f[2..])]))
  {
    ProtocolsOnlyLists(config, entry);
    ListsDistinct();
    assert ProtocolsParameter in Additions && RemoveProtocolsParameter in Removals;
    EntriesOfTwoSingles(config, Additions, Removals, ProtocolsParameter, RemoveProtocolsParameter, entry);
    AddThenRemoveProtocolsRun(parsing, entry);
  }

  /** The entry `a:href:https` has three fields. */
  lemma ProtocolsExampleFields(entry: string)
    requires entry == "a:href:https"
    ensures JavaSplit(entry, ':') == ["a", "href", "https"]
  {
    assert Join(["a", "href", "https"], ':') == entry;
    FieldsRoundTrip(["a", "href", "https"]);
  }

  /** The list `a:href:https` is a single value. */
  lemma ProtocolsExampleValues(entry: string)
    requires entry == "a:href:https"
    ensures Values(entry) == [entry]
  {
    ValuesOfField(entry);
  }

  /** In a configuration holding `list` under `protocols` and `removeProtocols`
      only, those two parameters read the values of `list` and the others none. */
  lemma ProtocolsExampleParameters(config: Config, list: string)
    requires config == map[ListKey(ProtocolsParameter) := list, ListKey(RemoveProtocolsParameter) := list]
    ensures forall p: Parameter ::
      GetValues(config, p) == if p == ProtocolsParameter || p == RemoveProtocolsParameter then Values(list) else []
  {
  }

  /** The mailet's test: `a:href:https` both added and removed, as written. */
  lemma AddThenRemoveProtocolsExample(entry: string, config: Config)
    requires entry == "a:href:https"
    requires config == map[ListKey(ProtocolsParameter) := entry, ListKey(RemoveProtocolsParameter) := entry]
    ensures InitResult(AsWritten, config)
      == Ok(WhitelistState(NONE, [AddProtocols("a", "href", ["https"]), RemoveProtocols("a", "href", ["https"])]))
  {
    ProtocolsExampleFields(entry);
    ProtocolsExampleValues(entry);
    ProtocolsExampleParameters(config, entry);
    AddThenRemoveProtocols(AsWritten, config, entry);
  }

  /** The lists of a configuration whose only list is `attributes`, split
      into the lists init reads first and those it reads second. */
  lemma AttributesOnlyLists(config: Config, values: seq<string>)
    requires forall p: Parameter :: GetValues(config, p) == if p == AttributesParameter then values else []
    ensures forall r :: r in Additions ==> GetValues(config, r) == if r == AttributesParameter then values else []
    ensures forall r :: r in Removals ==> GetValues(config, r) == []
  {
  }

  /** The entries of a configuration whose only list is `attributes` are its values. */
  lemma AttributesOnlyEntries(config: Config, values: seq<string>)
    requires forall p: Parameter :: GetValues(config, p) == if p == AttributesParameter then values else []
    ensures Entries(config, Additions + Removals) == Tagged(AttributesParameter, values)
  {
    AttributesOnlyLists(config, values);
    ListsDistinct();
    assert AttributesParameter in Additions;
    EntriesOfOne(config, Additions, AttributesParameter, values);
    EntriesOfEmpty(config, Removals);
    EntriesAppend(config, Additions, Removals);
    assert Tagged(AttributesParameter, values) + [] == Tagged(AttributesParameter, values);
  }

  /** Two entries, the first accepted and the second refused: the first call
      is made and the run fails with the second's error. */
  lemma RunStopsAtSecond(parsing: Parsing, first: Entry, second: Entry, op: WhitelistOp, e: InitError)
    requires ParseEntry(parsing, first.parameter, first.value) == Ok(op)
    requires ParseEntry(parsing, second.parameter, second.value) == Err(e)
    ensures Run(parsing, [first, second]) == InitRun([op], Some(e))
  {
    assert [first, second][1..] == [second];
  }

  /** A configuration without a level whose only list is `attributes`, with a
      tag and its attributes and then a tag alone: init fails at the tag
      alone, through the library's check as written and through the mailet's
      own once corrected. */
  lemma AttributesTagAloneFailsInit(config: Config, fields: seq<string>, tag: string)
    requires !Given(config, LevelKey)
    requires |fields| >= 2 && forall i :: 0 <= i < |fields| ==> IsField(fields[i])
    requires IsField(tag)
    requires forall p: Parameter ::
      GetValues(config, p) == if p == AttributesParameter then [Join(fields, ':'), tag] else []
    ensures InitResult(AsWritten, config) == Err(NoAttributeNames(tag))
    ensures InitResult(Corrected, config) == Err(InvalidProperty(AttributesParameter))
  {
    AttributesOnlyEntries(config, [Join(fields, ':'), tag]);
    TagAloneRun(AsWritten, fields, tag);
    TagAloneRun(Corrected, fields, tag);
  }

  /** The `attributes` values of a tag with attributes and then a tag alone:
      the first is added, and the run stops at the second. */
  lemma TagAloneRun(parsing: Parsing, fields: seq<string>, tag: string)
    requires |fields| >= 2 && forall i :: 0 <= i < |fields| ==> IsField(fields[i])
    requires IsField(tag)
    ensures Run(parsing, Tagged(AttributesParameter, [Join(fields, ':'), tag]))
         == InitRun([AddAttributes(fields[0], fields[1..])],
                    Some(if parsing.AsWritten? then NoAttributeNames(tag) else InvalidProperty(AttributesParameter)))
  {
    var add, alone := Entry(AttributesParameter, Join(fields, ':')), Entry(AttributesParameter, tag);
    assert Tagged(AttributesParameter, [Join(fields, ':'), tag]) == [add, alone];
    AttributesEntryAccepted(fields);
    AttributesTagAloneRefused(tag);
    RunStopsAtSecond(parsing, add, alone, AddAttributes(fields[0], fields[1..]),
                     if parsing.AsWritten? then NoAttributeNames(tag) else InvalidProperty(AttributesParameter));
  }

  /** The list `a:href,img` holds the values `a:href` and `img`. */
  lemma AttributesExampleValues(list: string)
    requires list == "a:href,img"
    ensures Values(list) == ["a:href", "img"]
  {
    AttributesExampleSlices(list);
    AttributesExampleSingleValues(list[..6], list[7..]);
    ValuesOfTwo(list, 6);
  }

  /** The two pieces of `a:href,img` on either side of its comma. */
  lemma AttributesExampleSlices(list: string)
    requires list == "a:href,img"
    ensures list[..6] == "a:href" && list[7..] == "img"
  {
  }

  /** `a:href` and `img` are each a single value. */
  lemma AttributesExampleSingleValues(entry: string, tag: string)
    requires entry == "a:href" && tag == "img"
    ensures Values(entry) == [entry] && Values(tag) == [tag]
  {
    ValuesOfField(entry);
    ValuesOfField(tag);
  }

  /** The entry `a:href` joins the fields `a` and `href`, and `img` is a field. */
  lemma AttributesExampleFields(entry: string)
    requires entry == "a:href"
    ensures Join(["a", "href"], ':') == entry
    ensures IsField("a") && IsField("href") && IsField("img")
  {
    assert Join(["href"], ':') == "href";
  }

  /** In a configuration holding `list` under `attributes` only, that
      parameter reads the values of `list` and the others none. */
  lemma AttributesExampleParameters(config: Config, list: string)
    requires config == map[ListKey(AttributesParameter) := list]
    ensures LevelKey !in config
    ensures forall p: Parameter :: GetValues(config, p) == if p == AttributesParameter then Values(list) else []
  {
  }

  /** The mailet's test with `attributes` set to `a:href,img`: as written,
      init fails because the library refuses `img` without attribute names. */
  lemma AttributesTagAloneExample(config: Config)
    requires config == map[ListKey(AttributesParameter) := "a:href,img"]
    ensures InitResult(AsWritten, config) == Err(NoAttributeNames("img"))
    ensures InitResult(Corrected, config) == Err(InvalidProperty(AttributesParameter))
  {
    AttributesExampleConfig(config);
    AttributesTagAloneFailsInit(config, ["a", "href"], "img");
  }

  /** The test's configuration, in the terms of AttributesTagAloneFailsInit. */
  lemma AttributesExampleConfig(config: Config)
    requires config == map[ListKey(AttributesParameter) := "a:href,img"]
    ensures LevelKey !in config
    ensures IsField("a") && IsField("href") && IsField("img")
    ensures forall p: Parameter ::
      GetValues(config, p) == if p == AttributesParameter then [Join(["a", "href"], ':'), "img"] else []
  {
    AttributesExampleValues("a:href,img");
    AttributesExampleParameters(config, "a:href,img");
    AttributesExampleFields("a:href");
  }
}
