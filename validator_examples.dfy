/**
 * Concrete front matters and what the validator says about them.
 */
module ValidatorExamples {
  import opened Strings
  import opened Frontmatter
  import opened SkillValidator

  /** `sorted(ALLOWED_PROPERTIES)`. */
  lemma SortedAllowed()
    ensures SortedSet(AllowedProperties) == ["allowed-tools", "description", "license", "metadata", "name"]
  {
    var sorted := ["allowed-tools", "description", "license", "metadata", "name"];
    assert StrictlySorted(sorted) by {
      var heads := "adlmn";
      assert forall i :: 0 <= i < 5 ==> sorted[i] != [] && sorted[i][0] == heads[i];
      forall i, j | 0 <= i < j < |sorted| ensures Less(sorted[i], sorted[j]) {
        assert heads[i] < heads[j];
      }
    }
    assert forall y :: y in sorted <==> y in AllowedProperties;
    SortedListingUnique(SortedSet(AllowedProperties), sorted);
  }

  /** The allowed keys, sorted and comma-joined, as every unexpected-key
      message ends. */
  lemma AllowedListingValue()
    ensures AllowedListing() ==
      "allowed-tools" + ", " + "description" + ", " + "license" + ", " + "metadata" + ", " + "name"
  {
    SortedAllowed();
    JoinFive("allowed-tools", "description", "license", "metadata", "name", ", ");
  }

  lemma UpperCaseAndUnderscoreRejected()
    ensures CheckNameText("My_Skill") == Some(NotHyphenCase("My_Skill"))
  {
    assert !IsHyphenCaseChar("My_Skill"[0]);
  }

  lemma LeadingHyphenRejected()
    ensures CheckNameText("-abc") == Some(BadHyphens("-abc"))
  {
  }

  lemma DoubleHyphenRejected()
    ensures CheckNameText("my--skill") == Some(BadHyphens("my--skill"))
  {
    assert "my--skill"[2] == '-' && "my--skill"[3] == '-';
  }

  lemma SixtyFiveCharacterNameRejected()
    ensures CheckNameText(seq(65, _ => 'a')) == Some(NameTooLong(65))
  {
  }

  lemma ValidNameAccepted()
    ensures CheckNameText("my-skill") == None
  {
    var n := "my-skill";
    assert AllHyphenCase(n);
    assert !HasDoubleHyphen(n) by {
      assert forall i :: 0 <= i < |n| && i != 2 ==> n[i] != '-';
    }
  }

  /** A name that is only whitespace passes unchecked. */
  lemma BlankNameAccepted()
    ensures CheckName(Str(" \t ")) == None
  {
    assert AllSpace(" \t ");
  }

  lemma ScriptTagRejected()
    ensures CheckDescriptionText("Runs a <script> tag") == Some(AngleBrackets)
  {
    assert "Runs a <script> tag"[7] == '<';
  }

  lemma LongDescriptionRejected()
    ensures CheckDescriptionText(seq(1025, _ => 'x')) == Some(DescriptionTooLong(1025))
  {
  }

  /** An extra key `foo` is reported even though `description` is missing
      too. */
  lemma ExtraKeyVerdict()
    ensures CheckEntries([(Str("name"), Str("my-skill")), (Str("foo"), Str("bar"))]) ==
            UnexpectedKeys(["foo"])
  {
    var entries := [(Str("name"), Str("my-skill")), (Str("foo"), Str("bar"))];
    var r := CheckEntries(entries);
    assert !IsAllowed(entries[1].0);
    assert forall i :: 0 <= i < |entries| ==> entries[i].0.Str?;
    assert r.UnexpectedKeys?;
    forall t ensures t in r.keys <==> t in ["foo"] {
      if HasKey(entries, Str(t)) {
        var i :| 0 <= i < |entries| && entries[i].0 == Str(t);
      }
      if t == "foo" { assert HasKey(entries, Str(t)) by { assert entries[1].0 == Str(t); } }
    }
    SortedListingUnique(r.keys, ["foo"]);
  }

  lemma ExtraKeyMessage()
    ensures Message(UnexpectedKeys(["foo"])) ==
      "Unexpected key(s) in SKILL.md frontmatter: " + "foo" +
      ". Allowed properties are: " +
      ("allowed-tools" + ", " + "description" + ", " + "license" + ", " + "metadata" + ", " + "name")
  {
    AllowedListingValue();
    assert Join(["foo"], ", ") == "foo";
  }

  /** Whatever the SKILL.md text around it, a front matter that loads as
      that dictionary is refused with a message naming `foo` and the whole
      allowed set. */
  lemma ExtraKeyReported(content: string, parse: string -> Parsed)
    requires Extract(content).Block?
    requires parse(Extract(content).text) == Mapping([(Str("name"), Str("my-skill")), (Str("foo"), Str("bar"))])
    ensures ValidateSkill(true, content, parse) ==
      Returned(false, "Unexpected key(s) in SKILL.md frontmatter: " + "foo" +
                      ". Allowed properties are: " +
      ("allowed-tools" + ", " + "description" + ", " + "license" + ", " + "metadata" + ", " + "name"))
  {
    ExtraKeyVerdict();
    assert Diagnose(true, content, parse) == UnexpectedKeys(["foo"]);
    ExtraKeyMessage();
  }
}
