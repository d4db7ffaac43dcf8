/**
 * `validate_skill`: the chain of checks a skill folder's SKILL.md must pass
 * before it may be packaged. Each check either lets the chain go on or ends
 * it with a `(False, message)` pair; the first failing check decides.
 *
 * Whether SKILL.md exists, and the text read from it, are inputs; the YAML
 * loader is the function `parse`.
 */
module SkillValidator {
  import opened Strings
  import opened Frontmatter

  /** The only keys a front matter may use. */
  const AllowedProperties: seq<string> := ["name", "description", "license", "allowed-tools", "metadata"]
  const MaxNameLength: nat := 64
  const MaxDescriptionLength: nat := 1024
  const ValidMessage: string := "Skill is valid!"

  /** Why a `name` value is refused. */
  datatype NameViolation =
    | NameNotString(typeName: string)
    | NotHyphenCase(name: string)
    | BadHyphens(name: string)
    | NameTooLong(length: nat)
  {
    /** Every name message opens with the field it is about. */
    function Message(): (r: string)
      ensures StartsWith(r, "Name ")
    {
      var detail :=
        match this
        case NameNotString(t) => "must be a string, got " + t
        case NotHyphenCase(n) =>
          "'" + n + "' should be hyphen-case (lowercase letters, digits, and hyphens only)"
        case BadHyphens(n) =>
          "'" + n + "' cannot start/end with hyphen or contain consecutive hyphens"
        case NameTooLong(k) =>
          "is too long (" + NatToString(k) + " characters). Maximum is 64 characters.";
      PrefixOfConcat("Name ", detail);
      "Name " + detail
    }
  }

  /** Why a `description` value is refused. */
  datatype DescriptionViolation =
    | DescriptionNotString(typeName: string)
    | AngleBrackets
    | DescriptionTooLong(length: nat)
  {
    /** Every description message opens with the field it is about. */
    function Message(): (r: string)
      ensures StartsWith(r, "Description ")
    {
      var detail :=
        match this
        case DescriptionNotString(t) => "must be a string, got " + t
        case AngleBrackets => "cannot contain angle brackets (< or >)"
        case DescriptionTooLong(k) =>
          "is too long (" + NatToString(k) + " characters). Maximum is 1024 characters.";
      PrefixOfConcat("Description ", detail);
      "Description " + detail
    }
  }

  /** Which step of the chain ended it. */
  datatype Verdict =
    | Valid
    | SkillMdNotFound
    | NoFrontmatterFound
    | InvalidFormat
    | InvalidYaml(diagnostic: string)
    | NotADictionary
    | UnexpectedKeys(keys: seq<string>)
      // a key that is not a str reaches `', '.join(sorted(...))`, which raises
    | UnjoinableKeys
    | MissingName
    | MissingDescription
    | BadName(nameViolation: NameViolation)
    | BadDescription(descriptionViolation: DescriptionViolation)

  /** What `validate_skill` hands back to its caller: a `(valid, message)`
      pair, or an exception that escapes it. */
  datatype Outcome = Returned(valid: bool, message: string) | Raised(exception: string)

  /* ---------------------------------------------------------------------
   * The name rules
   * ------------------------------------------------------------------- */

  predicate IsHyphenCaseChar(c: char) {
    ('a' <= c <= 'z') || ('0' <= c <= '9') || c == '-'
  }

  /** `[a-z0-9-]+` consuming all of `s`. */
  predicate HyphenCaseRun(s: string)
    ensures HyphenCaseRun(s) <==> s != [] && forall i :: 0 <= i < |s| ==> IsHyphenCaseChar(s[i])
  {
    |s| > 0 && IsHyphenCaseChar(s[0]) && (|s| == 1 || HyphenCaseRun(s[1..]))
  }

  /** `re.match(r'^[a-z0-9-]+$', s)`: without MULTILINE, `$` matches at the
      end and also just before a final newline. So the string, less one
      final newline if it has one, is non-empty and all hyphen-case. */
  predicate MatchesNamePattern(s: string)
    ensures MatchesNamePattern(s) <==>
      var body := if s != [] && s[|s| - 1] == '\n' then s[..|s| - 1] else s;
      body != [] && forall i :: 0 <= i < |body| ==> IsHyphenCaseChar(body[i])
  {
    HyphenCaseRun(s) || (|s| > 0 && s[|s| - 1] == '\n' && HyphenCaseRun(s[..|s| - 1]))
  }

  ghost predicate AllHyphenCase(name: string) {
    forall i :: 0 <= i < |name| ==> IsHyphenCaseChar(name[i])
  }

  ghost predicate HasDoubleHyphen(name: string) {
    exists i :: 0 <= i < |name| - 1 && name[i] == '-' && name[i + 1] == '-'
  }

  ghost predicate HyphensMisplaced(name: string) {
    name != [] && (name[0] == '-' || name[|name| - 1] == '-' || HasDoubleHyphen(name))
  }

  /** The name rules, stated directly: an empty (trimmed) name is let
      through; any other is lowercase letters, digits and single inner
      hyphens, at most 64 characters long. */
  ghost predicate NameRulesHold(name: string) {
    name == [] ||
    (AllHyphenCase(name) && !HyphensMisplaced(name) && |name| <= MaxNameLength)
  }

  /** On a stripped name, which cannot end in a newline, the pattern's `$`
      can only match at the very end. */
  lemma NamePatternOnStripped(name: string)
    requires name != [] && !IsSpace(name[|name| - 1])
    ensures MatchesNamePattern(name) <==> AllHyphenCase(name)
  {
    assert IsSpace('\n');
  }

  /** The `startswith`/`endswith`/`in` tests find exactly a misplaced hyphen. */
  lemma HyphenChecks(name: string)
    requires name != []
    ensures (StartsWith(name, "-") || EndsWith(name, "-") || Contains(name, "--")) <==>
            HyphensMisplaced(name)
  {
    ContainsPair(name, '-', '-');
    assert StartsWith(name, "-") <==> name[0] == '-' by { assert name[..1] == [name[0]]; }
    assert EndsWith(name, "-") <==> name[|name| - 1] == '-' by {
      assert name[|name| - 1..] == [name[|name| - 1]];
    }
  }

  /** The content rules on a stripped `name`, in the order the validator
      runs them; an empty name is not checked. */
  function CheckNameText(name: string): (r: Option<NameViolation>)
    requires name != [] ==> !IsSpace(name[0]) && !IsSpace(name[|name| - 1])
    ensures r.None? <==> NameRulesHold(name)
    // the first rule broken is the one reported
    ensures r == Some(NotHyphenCase(name)) <==> name != [] && !AllHyphenCase(name)
    ensures r == Some(BadHyphens(name)) <==> AllHyphenCase(name) && HyphensMisplaced(name)
    ensures r == Some(NameTooLong(|name|)) <==>
      AllHyphenCase(name) && !HyphensMisplaced(name) && |name| > MaxNameLength
  {
    if name == [] then None
    else
      NamePatternOnStripped(name);
      HyphenChecks(name);
      if !MatchesNamePattern(name) then Some(NotHyphenCase(name))
      else if StartsWith(name, "-") || EndsWith(name, "-") || Contains(name, "--") then
        Some(BadHyphens(name))
      else if |name| > MaxNameLength then Some(NameTooLong(|name|))
      else None
  }

  /** The `name` checks: a type check, then the content rules on the
      stripped text. */
  function CheckName(v: Node): (r: Option<NameViolation>)
    ensures r.None? <==> v.Str? && NameRulesHold(Strip(v.text))
    ensures v.NonStr? ==> r == Some(NameNotString(v.typeName))
    ensures r.Some? && !r.value.NameNotString? ==> v.Str?
  {
    match v
    case NonStr(t) => Some(NameNotString(t))
    case Str(raw) => CheckNameText(Strip(raw))
  }

  /** Whitespace around a name changes nothing: the rules see the stripped
      text only. */
  lemma NamePaddingIgnored(a: string, core: string, b: string)
    requires AllSpace(a) && AllSpace(b)
    requires core != [] ==> !IsSpace(core[0]) && !IsSpace(core[|core| - 1])
    ensures CheckName(Str(a + core + b)) == CheckNameText(core)
  {
    StripSurrounded(a, core, b);
  }

  /* ---------------------------------------------------------------------
   * The description rules
   * ------------------------------------------------------------------- */

  ghost predicate HasAngleBracket(d: string) {
    exists i :: 0 <= i < |d| && (d[i] == '<' || d[i] == '>')
  }

  /** The description rules, stated directly: an empty (trimmed)
      description is let through; any other has no angle bracket and at
      most 1024 characters. */
  ghost predicate DescriptionRulesHold(d: string) {
    d == [] || (!HasAngleBracket(d) && |d| <= MaxDescriptionLength)
  }

  /** The content rules on a stripped `description`, in the order the
      validator runs them; an empty description is not checked. */
  function CheckDescriptionText(description: string): (r: Option<DescriptionViolation>)
    ensures r.None? <==> DescriptionRulesHold(description)
    ensures r == Some(AngleBrackets) <==> HasAngleBracket(description)
    ensures r == Some(DescriptionTooLong(|description|)) <==>
      !HasAngleBracket(description) && |description| > MaxDescriptionLength
  {
    if description == [] then None
    else
      ContainsChar(description, '<');
      ContainsChar(description, '>');
      if Contains(description, "<") || Contains(description, ">") then Some(AngleBrackets)
      else if |description| > MaxDescriptionLength then
        Some(DescriptionTooLong(|description|))
      else None
  }

  /** The `description` checks: a type check, then the content rules on
      the stripped text. */
  function CheckDescription(v: Node): (r: Option<DescriptionViolation>)
    ensures r.None? <==> v.Str? && DescriptionRulesHold(Strip(v.text))
    ensures v.NonStr? ==> r == Some(DescriptionNotString(v.typeName))
    ensures r.Some? && !r.value.DescriptionNotString? ==> v.Str?
  {
    match v
    case NonStr(t) => Some(DescriptionNotString(t))
    case Str(raw) => CheckDescriptionText(Strip(raw))
  }

  /** Whitespace around a description changes nothing. */
  lemma DescriptionPaddingIgnored(a: string, core: string, b: string)
    requires AllSpace(a) && AllSpace(b)
    requires core != [] ==> !IsSpace(core[0]) && !IsSpace(core[|core| - 1])
    ensures CheckDescription(Str(a + core + b)) == CheckDescriptionText(core)
  {
    StripSurrounded(a, core, b);
  }

  /* ---------------------------------------------------------------------
   * The key checks
   * ------------------------------------------------------------------- */

  predicate IsAllowed(key: Node) {
    key.Str? && key.text in AllowedProperties
  }

  ghost predicate AllKeysAllowed(entries: seq<(Node, Node)>) {
    forall i :: 0 <= i < |entries| ==> IsAllowed(entries[i].0)
  }

  /** `set(frontmatter.keys()) - ALLOWED_PROPERTIES`, in key order. */
  function UnexpectedKeyNodes(entries: seq<(Node, Node)>): (r: seq<Node>)
    ensures forall k :: k in r <==> HasKey(entries, k) && !IsAllowed(k)
  {
    if entries == [] then []
    else
      var n := |entries| - 1;
      var front := UnexpectedKeyNodes(entries[..n]);
      var key := entries[n].0;
      assert forall k :: HasKey(entries, k) <==> HasKey(entries[..n], k) || k == key by {
        forall k ensures HasKey(entries, k) <==> HasKey(entries[..n], k) || k == key {
          if HasKey(entries, k) && k != key {
            var i :| 0 <= i < |entries| && entries[i].0 == k;
            assert entries[..n][i] == entries[i];
          }
          if HasKey(entries[..n], k) {
            var i :| 0 <= i < n && entries[..n][i].0 == k;
            assert entries[i] == entries[..n][i];
          }
        }
      }
      if IsAllowed(key) then front else front + [key]
  }

  /** The text of each key, for a list of str keys. */
  function KeyTexts(keys: seq<Node>): (r: seq<string>)
    requires forall k :: k in keys ==> k.Str?
    ensures forall t :: t in r <==> Str(t) in keys
  {
    if keys == [] then []
    else
      var r := [keys[0].text] + KeyTexts(keys[1..]);
      assert forall k :: k in keys <==> k == keys[0] || k in keys[1..] by {
        assert keys == [keys[0]] + keys[1..];
      }
      r
  }

  /** The sorted, comma-separated listing of the allowed keys that an
      unexpected-key message ends with. */
  function AllowedListing(): string {
    Join(SortedSet(AllowedProperties), ", ")
  }

  /** The message that goes with each verdict that is returned (a
      non-string key raises instead); only success carries the success
      message. */
  function Message(v: Verdict): (r: string)
    requires v != UnjoinableKeys
    ensures r == ValidMessage <==> v == Valid
  {
    match v
    case Valid => ValidMessage
    case SkillMdNotFound => "SKILL.md not found"
    case NoFrontmatterFound => "No YAML frontmatter found"
    case InvalidFormat => "Invalid frontmatter format"
    case InvalidYaml(d) => "Invalid YAML in frontmatter: " + d
    case NotADictionary => "Frontmatter must be a YAML dictionary"
    case UnexpectedKeys(keys) =>
      "Unexpected key(s) in SKILL.md frontmatter: " + Join(keys, ", ") +
      ". Allowed properties are: " + AllowedListing()
    case MissingName => "Missing 'name' in frontmatter"
    case MissingDescription => "Missing 'description' in frontmatter"
    case BadName(e) =>
      var m := e.Message();
      assert m[0] != ValidMessage[0];
      m
    case BadDescription(e) =>
      var m := e.Message();
      assert m[0] != ValidMessage[0];
      m
  }

  /* ---------------------------------------------------------------------
   * The whole chain
   * ------------------------------------------------------------------- */

  /** Everything a loaded front matter must satisfy, stated directly. */
  ghost predicate FrontmatterOk(entries: seq<(Node, Node)>) {
    && AllKeysAllowed(entries)
    && HasKey(entries, Str("name"))
    && HasKey(entries, Str("description"))
    && var name := Lookup(entries, Str("name"));
    && var description := Lookup(entries, Str("description"));
    && name.Str? && NameRulesHold(Strip(name.text))
    && description.Str? && DescriptionRulesHold(Strip(description.text))
  }

  /** The checks on a loaded dictionary, in the validator's order: keys,
      presence of `name` then `description`, then `name`'s value, then
      `description`'s value. */
  function CheckEntries(entries: seq<(Node, Node)>): (r: Verdict)
    ensures r == Valid <==> FrontmatterOk(entries)
    // an unknown key is reported before anything else is looked at
    ensures r == UnjoinableKeys <==> exists i :: 0 <= i < |entries| && entries[i].0.NonStr?
    ensures r.UnexpectedKeys? <==>
      (forall i :: 0 <= i < |entries| ==> entries[i].0.Str?) && !AllKeysAllowed(entries)
    ensures r.UnexpectedKeys? ==> StrictlySorted(r.keys)
    ensures r.UnexpectedKeys? ==> forall t ::
      t in r.keys <==> HasKey(entries, Str(t)) && t !in AllowedProperties
    // `name` is looked for before `description`
    ensures r == MissingName <==> AllKeysAllowed(entries) && !HasKey(entries, Str("name"))
    ensures r == MissingDescription <==>
      AllKeysAllowed(entries) && HasKey(entries, Str("name")) && !HasKey(entries, Str("description"))
    // `name`'s value is judged before `description`'s
    ensures r.BadName? <==>
      && AllKeysAllowed(entries)
      && HasKey(entries, Str("name")) && HasKey(entries, Str("description"))
      && CheckName(Lookup(entries, Str("name"))).Some?
    ensures r.BadName? ==> CheckName(Lookup(entries, Str("name"))) == Some(r.nameViolation)
    // `description`'s value is judged only once `name`'s has passed
    ensures r.BadDescription? <==>
      && AllKeysAllowed(entries)
      && HasKey(entries, Str("name")) && HasKey(entries, Str("description"))
      && CheckName(Lookup(entries, Str("name"))).None?
      && CheckDescription(Lookup(entries, Str("description"))).Some?
    ensures r.BadDescription? ==>
      CheckDescription(Lookup(entries, Str("description"))) == Some(r.descriptionViolation)
  {
    var unexpected := UnexpectedKeyNodes(entries);
    assert unexpected == [] <==> AllKeysAllowed(entries) by {
      if !AllKeysAllowed(entries) {
        var i :| 0 <= i < |entries| && !IsAllowed(entries[i].0);
        assert entries[i].0 in unexpected;
      }
      if unexpected != [] {
        assert unexpected[0] in unexpected;
      }
    }
    assert (exists k :: k in unexpected && k.NonStr?) <==>
           (exists i :: 0 <= i < |entries| && entries[i].0.NonStr?) by {
      if exists i :: 0 <= i < |entries| && entries[i].0.NonStr? {
        var i :| 0 <= i < |entries| && entries[i].0.NonStr?;
        assert entries[i].0 in unexpected;
      }
    }
    if unexpected != [] then
      if exists k :: k in unexpected && k.NonStr? then UnjoinableKeys
      else UnexpectedKeys(SortedSet(KeyTexts(unexpected)))
    else if !HasKey(entries, Str("name")) then MissingName
    else if !HasKey(entries, Str("description")) then MissingDescription
    else
      match CheckName(Lookup(entries, Str("name")))
      case Some(e) => BadName(e)
      case None =>
        match CheckDescription(Lookup(entries, Str("description")))
        case Some(e) => BadDescription(e)
        case None => Valid
  }

  /** Every step of `validate_skill`, reporting which one ended it. */
  function Diagnose(hasSkillMd: bool, content: string, parse: string -> Parsed): (r: Verdict)
    ensures !hasSkillMd ==> r == SkillMdNotFound
    ensures hasSkillMd && !StartsWith(content, Fence) ==> r == NoFrontmatterFound
    ensures hasSkillMd ==> (r == InvalidFormat <==> Extract(content) == BadFormat)
    ensures r.InvalidYaml? || r == NotADictionary ==>
      Extract(content).Block? && !parse(Extract(content).text).Mapping?
    // a well-formed block is judged by what the loader makes of it
    ensures hasSkillMd && Extract(content).Block? ==>
      (match parse(Extract(content).text)
       case YamlError(d) => r == InvalidYaml(d)
       case NotMapping => r == NotADictionary
       case Mapping(entries) => r == CheckEntries(entries))
    ensures r == Valid <==>
      && hasSkillMd
      && Extract(content).Block?
      && parse(Extract(content).text).Mapping?
      && FrontmatterOk(parse(Extract(content).text).entries)
  {
    if !hasSkillMd then SkillMdNotFound
    else
      match Extract(content)
      case NoFrontmatter => NoFrontmatterFound
      case BadFormat => InvalidFormat
      case Block(text) =>
        match parse(text)
        case YamlError(d) => InvalidYaml(d)
        case NotMapping => NotADictionary
        case Mapping(entries) => CheckEntries(entries)
  }

  /** What the caller of `validate_skill` receives for a verdict. */
  function Report(v: Verdict): (r: Outcome)
    ensures v == UnjoinableKeys <==> r.Raised?
    ensures r.Returned? ==> (r.valid <==> v == Valid)
    ensures r.Returned? ==> r.message == Message(v)
  {
    if v == UnjoinableKeys then Raised("TypeError")
    else Returned(v == Valid, Message(v))
  }

  /** `validate_skill`. */
  function ValidateSkill(hasSkillMd: bool, content: string, parse: string -> Parsed): (r: Outcome)
    ensures r == Returned(true, ValidMessage) <==>
      && hasSkillMd
      && Extract(content).Block?
      && parse(Extract(content).text).Mapping?
      && FrontmatterOk(parse(Extract(content).text).entries)
    ensures r.Returned? && r.valid ==> r.message == ValidMessage
    ensures !hasSkillMd ==> r == Returned(false, "SKILL.md not found")
    ensures hasSkillMd && !StartsWith(content, Fence) ==> r == Returned(false, "No YAML frontmatter found")
    ensures hasSkillMd && StartsWith(content, Fence) && !StartsWith(content, Fence + "\n") ==>
      r == Returned(false, "Invalid frontmatter format")
    // `---\n` with no closing `\n---` after it is refused the same way
    ensures hasSkillMd && Extract(content) == BadFormat ==> r == Returned(false, "Invalid frontmatter format")
    ensures hasSkillMd && Extract(content).Block? ==>
      (match parse(Extract(content).text)
       case YamlError(d) => r == Returned(false, "Invalid YAML in frontmatter: " + d)
       case NotMapping => r == Returned(false, "Frontmatter must be a YAML dictionary")
       case Mapping(entries) => r == Report(CheckEntries(entries)))
    ensures r.Raised? ==> r.exception == "TypeError"
  {
    Report(Diagnose(hasSkillMd, content, parse))
  }
}
