/**
  `get_enum_description` (app/api/v1/common/utils.py): the bullet list of an enumeration's
  values with their descriptions that the request and response schemas embed in their
  field documentation.

  The enumerations are `str` enumerations, whose members hash and compare like their
  values, so the descriptions dictionary is modelled as a map from member value to text.
  An enumeration is given by its declarations in order; Python's iteration skips aliases
  (a declaration reusing an earlier value), and so does `Members`.
 */
module EnumDoc {
  import opened Text

  datatype EnumMember = EnumMember(name: string, value: string)

  const NoDescription: string := "No description available."

  predicate HasValue(decls: seq<EnumMember>, v: string)
  {
    exists i :: 0 <= i < |decls| && decls[i].value == v
  }

  /** The members iteration yields: the first declaration of each value, in declaration order. */
  function Members(decls: seq<EnumMember>): (ms: seq<EnumMember>)
    ensures |ms| <= |decls|
    ensures forall i, j :: 0 <= i < j < |ms| ==> ms[i].value != ms[j].value
    ensures forall i :: 0 <= i < |ms| ==> ms[i] in decls
    ensures forall i :: 0 <= i < |decls| ==> HasValue(ms, decls[i].value)
    decreases |decls|
  {
    if decls == [] then []
    else
      var init := decls[..|decls| - 1];
      var last := decls[|decls| - 1];
      assert forall i :: 0 <= i < |init| ==> decls[i] == init[i];
      if HasValue(init, last.value) then Members(init)
      else
        HasValueAppend(Members(init), last);
        Members(init) + [last]
  }

  /** Appending a member keeps every value present and adds its own. */
  lemma HasValueAppend(ms: seq<EnumMember>, m: EnumMember)
    ensures forall v :: HasValue(ms, v) ==> HasValue(ms + [m], v)
    ensures HasValue(ms + [m], m.value)
  {
    forall v | HasValue(ms, v) ensures HasValue(ms + [m], v) {
      var k :| 0 <= k < |ms| && ms[k].value == v;
      assert (ms + [m])[k] == ms[k];
    }
    assert (ms + [m])[|ms|] == m;
  }

  /** One bullet: " - `value`: description", with the default text for a member without a description. */
  function Line(m: EnumMember, descriptions: map<string, string>): string
  {
    " - `" + m.value + "`: " + (if m.value in descriptions then descriptions[m.value] else NoDescription)
  }

  function DescriptionLines(decls: seq<EnumMember>, descriptions: map<string, string>): (lines: seq<string>)
    ensures |lines| == |Members(decls)|
    ensures forall i :: 0 <= i < |lines| ==> lines[i] == Line(Members(decls)[i], descriptions)
  {
    var ms := Members(decls);
    seq(|ms|, i requires 0 <= i < |ms| => Line(ms[i], descriptions))
  }

  /** `get_enum_description(enum, descriptions)`: the bullets joined by newlines. */
  function GetEnumDescription(decls: seq<EnumMember>, descriptions: map<string, string>): (r: string)
    ensures r == "" <==> Members(decls) == []
  {
    var lines := DescriptionLines(decls, descriptions);
    assert lines != [] ==> |Join(lines, '\n')| >= |lines[0]| > 0;
    Join(lines, '\n')
  }

  /** Values and descriptions without line breaks, as in every enumeration documented this way. */
  predicate SingleLineTexts(decls: seq<EnumMember>, descriptions: map<string, string>)
  {
    && (forall i :: 0 <= i < |decls| ==> NoSep(decls[i].value, '\n'))
    && (forall k :: k in descriptions ==> NoSep(descriptions[k], '\n'))
  }

  /**
    The text consists of exactly one line per member, in member order, each line being
    that member's bullet; there is no trailing newline (it would show as an extra empty line).
   */
  lemma {:induction false} OneLinePerMember(decls: seq<EnumMember>, descriptions: map<string, string>)
    requires SingleLineTexts(decls, descriptions)
    requires |Members(decls)| >= 1
    ensures Split(GetEnumDescription(decls, descriptions), '\n') == DescriptionLines(decls, descriptions)
    ensures |Split(GetEnumDescription(decls, descriptions), '\n')| == |Members(decls)|
    ensures forall i :: 0 <= i < |Members(decls)| ==>
              Split(GetEnumDescription(decls, descriptions), '\n')[i] == Line(Members(decls)[i], descriptions)
  {
    var ms := Members(decls);
    var lines := DescriptionLines(decls, descriptions);
    forall i | 0 <= i < |lines| ensures NoSep(lines[i], '\n') {
      var m := ms[i];
      assert m in decls;
      var d := if m.value in descriptions then descriptions[m.value] else NoDescription;
      assert NoSep(" - `", '\n');
      assert NoSep("`: ", '\n');
      assert NoSep(NoDescription, '\n');
      NoSepConcat(" - `", m.value, '\n');
      NoSepConcat(" - `" + m.value, "`: ", '\n');
      NoSepConcat(" - `" + m.value + "`: ", d, '\n');
    }
    SplitJoin(lines, '\n');
  }

  /** Entries whose key is not the value of a member never reach the text. */
  lemma ForeignDescriptionIgnored(decls: seq<EnumMember>, descriptions: map<string, string>, key: string, text: string)
    requires !HasValue(decls, key)
    ensures GetEnumDescription(decls, descriptions[key := text]) == GetEnumDescription(decls, descriptions)
    ensures GetEnumDescription(decls, descriptions - {key}) == GetEnumDescription(decls, descriptions)
  {
    var ms := Members(decls);
    forall i | 0 <= i < |ms|
      ensures Line(ms[i], descriptions[key := text]) == Line(ms[i], descriptions)
      ensures Line(ms[i], descriptions - {key}) == Line(ms[i], descriptions)
    {
      assert HasValue(ms, ms[i].value);
      assert ms[i].value != key;
    }
    assert DescriptionLines(decls, descriptions[key := text]) == DescriptionLines(decls, descriptions);
    assert DescriptionLines(decls, descriptions - {key}) == DescriptionLines(decls, descriptions);
  }

  /** An alias declared after the member it aliases adds no line. */
  lemma AliasAddsNoLine(decls: seq<EnumMember>, alias: EnumMember, descriptions: map<string, string>)
    requires HasValue(decls, alias.value)
    ensures Members(decls + [alias]) == Members(decls)
    ensures GetEnumDescription(decls + [alias], descriptions) == GetEnumDescription(decls, descriptions)
  {
    assert (decls + [alias])[..|decls|] == decls;
  }

  /** A new value declared last adds its bullet as the last line. */
  lemma NewValueAddsLastLine(decls: seq<EnumMember>, member: EnumMember, descriptions: map<string, string>)
    requires !HasValue(decls, member.value)
    ensures DescriptionLines(decls + [member], descriptions)
            == DescriptionLines(decls, descriptions) + [Line(member, descriptions)]
  {
    assert (decls + [member])[..|decls|] == decls;
  }

  // CollectionStatus and its descriptions (app/api/v1/book/models/api/collection.py).

  const CollectionStatus: seq<EnumMember> := [
    EnumMember("PENDING", "pending"),
    EnumMember("BOOKED", "booked"),
    EnumMember("CANCELLED", "cancelled"),
    EnumMember("FAILED", "failed")
  ]

  const CollectionStatusDescriptions: map<string, string> := map[
    "pending" := "The collection request is pending.",
    "booked" := "The collection request has been booked.",
    "cancelled" := "The collection request has been cancelled."
  ]

  /** With pairwise distinct values there are no aliases: every declaration is a member. */
  lemma {:induction false} DistinctValuesAllMembers(decls: seq<EnumMember>)
    requires forall i, j :: 0 <= i < j < |decls| ==> decls[i].value != decls[j].value
    ensures Members(decls) == decls
  {
    if decls != [] {
      var init := decls[..|decls| - 1];
      DistinctValuesAllMembers(init);
      assert !HasValue(init, decls[|decls| - 1].value);
      assert init + [decls[|decls| - 1]] == decls;
    }
  }

  /** CollectionStatus.FAILED has no description, so its bullet, the fourth and last, carries the default text. */
  lemma FailedHasDefaultDescription()
    ensures |DescriptionLines(CollectionStatus, CollectionStatusDescriptions)| == 4
    ensures DescriptionLines(CollectionStatus, CollectionStatusDescriptions)[3]
            == " - `" + "failed" + "`: " + NoDescription
  {
    CollectionStatusDistinct();
    DistinctValuesAllMembers(CollectionStatus);
    var failed := CollectionStatus[3];
    assert failed.value == "failed";
    assert failed.value !in CollectionStatusDescriptions;
    assert Line(failed, CollectionStatusDescriptions) == " - `" + "failed" + "`: " + NoDescription;
  }

  lemma CollectionStatusDistinct()
    ensures forall i, j :: 0 <= i < j < |CollectionStatus| ==> CollectionStatus[i].value != CollectionStatus[j].value
  {
    var vs := seq(4, i requires 0 <= i < 4 => CollectionStatus[i].value);
    assert vs == ["pending", "booked", "cancelled", "failed"];
    assert vs[0][0] == 'p' && vs[1][0] == 'b' && vs[2][0] == 'c' && vs[3][0] == 'f';
  }

  /** PRE_NOTICE_WECHAT reuses the value of PRE_NOTICE_WHATSAPP, so only the latter gets a bullet. */
  lemma WeChatIsAnAlias(descriptions: map<string, string>)
    ensures Members([EnumMember("PRE_NOTICE_WHATSAPP", "pre_notice_whatsapp"),
                     EnumMember("PRE_NOTICE_WECHAT", "pre_notice_whatsapp")])
            == [EnumMember("PRE_NOTICE_WHATSAPP", "pre_notice_whatsapp")]
  {
    var whatsapp := EnumMember("PRE_NOTICE_WHATSAPP", "pre_notice_whatsapp");
    var wechat := EnumMember("PRE_NOTICE_WECHAT", "pre_notice_whatsapp");
    assert [whatsapp][0].value == wechat.value;
    assert HasValue([whatsapp], wechat.value);
    AliasAddsNoLine([whatsapp], wechat, descriptions);
    assert [whatsapp] + [wechat] == [whatsapp, wechat];
    assert [whatsapp][..0] == [];
  }
}
