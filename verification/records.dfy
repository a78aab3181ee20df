/** The question/answer records of `main.py` and the step that annotates
    one with the grade and skill read from the language model's reply. A
    record is a Python `dict` from keys to JSON-like values; only the shape
    the program relies on is kept. */
module Records {
  import opened Wrappers
  import opened PyStr
  import opened ResponseParser

  /** A record value: a string, an integer, or any other JSON value, whose
      contents the program never inspects. */
  datatype Field = Str(text: string) | Int(value: int) | Other

  type Record = map<string, Field>

  const GradeKey: string := "grade"
  const SkillKey: string := "skill"

  /** The annotation done after the grading request returns:
      `q_a['grade'] = parse_xml_data('grade', response)` and then
      `q_a['skill'] = parse_xml_data('skill', response)`. The two keys are
      added or overwritten with strings read from the same reply; every
      other key keeps its value. */
  function Annotate(rec: Record, response: string): (r: Record)
    ensures r.Keys == rec.Keys + {GradeKey, SkillKey}
    ensures forall k :: k in rec && k != GradeKey && k != SkillKey ==> r[k] == rec[k]
    ensures r[GradeKey] == Str(ParseXmlData(GradeKey, response))
    ensures r[SkillKey] == Str(ParseXmlData(SkillKey, response))
  {
    rec[GradeKey := Str(ParseXmlData(GradeKey, response))][SkillKey := Str(ParseXmlData(SkillKey, response))]
  }

  /** `r` carries the grade and skill read from `response`. */
  predicate AnnotatedFrom(r: Record, response: string) {
    && GradeKey in r && r[GradeKey] == Str(ParseXmlData(GradeKey, response))
    && SkillKey in r && r[SkillKey] == Str(ParseXmlData(SkillKey, response))
  }

  /** Both annotations are pieces of the reply with no whitespace at either
      end. */
  lemma AnnotatedPieces(rec: Record, response: string)
    ensures var r := Annotate(rec, response);
            && Trimmed(r[GradeKey].text) && Contains(response, r[GradeKey].text)
            && Trimmed(r[SkillKey].text) && Contains(response, r[SkillKey].text)
  {
    XmlIsPiece(GradeKey, response);
    XmlIsPiece(SkillKey, response);
  }

  /** `int(q_a['grade'])`: a missing key raises `KeyError`, a string goes
      through `int`, an integer is itself; None stands for the raised error. */
  function GradeOf(rec: Record): (g: Option<int>)
    ensures GradeKey !in rec ==> g == None
    ensures GradeKey in rec && rec[GradeKey].Int? ==> g == Some(rec[GradeKey].value)
  {
    if GradeKey !in rec then None
    else match rec[GradeKey]
      case Str(t) => ParseInt(t)
      case Int(v) => Some(v)
      case Other => None
  }

  /** Annotating again overwrites both keys: only the last reply counts. */
  lemma AnnotateTwice(rec: Record, first: string, second: string)
    ensures Annotate(Annotate(rec, first), second) == Annotate(rec, second)
  {
  }

  /** The reply asked for by the grading prompt, `<grade>G</grade>` with
      whitespace around the integer and anything after the closing tag,
      reads back as that integer. */
  lemma GradeReadsBack(rec: Record, pre: string, lead: string, i: int, trail: string, post: string)
    requires '<' !in pre && AllSpace(lead) && AllSpace(trail)
    ensures var value := lead + Show(i) + trail;
            GradeOf(Annotate(rec, pre + OpenTag(GradeKey) + value + CloseTag(GradeKey) + post)) == Some(i)
  {
    var value := lead + Show(i) + trail;
    var response := pre + OpenTag(GradeKey) + value + CloseTag(GradeKey) + post;
    PaddedShowUntagged(lead, i, trail);
    XmlEmbedded(pre, GradeKey, value, post);
    ShowTrimmed(i);
    StripPadded(lead, Show(i), trail);
    ShowReadsBack(Show(i), i);
    AnnotatedGrade(rec, response, Show(i), i);
  }

  /** `int` reads back the rendering of an integer. */
  lemma ShowReadsBack(t: string, i: int)
    requires t == Show(i)
    ensures ParseInt(t) == Some(i)
  {
    ParseIntShow([], i, []);
    assert [] + Show(i) + [] == t;
  }

  /** The grade of an annotated record is `int` of the grade text read. */
  lemma AnnotatedGrade(rec: Record, response: string, t: string, i: int)
    requires ParseXmlData(GradeKey, response) == t && ParseInt(t) == Some(i)
    ensures GradeOf(Annotate(rec, response)) == Some(i)
  {
  }

  /** A padded integer contains no `<`, so it cannot open a tag. */
  lemma PaddedShowUntagged(lead: string, i: int, trail: string)
    requires AllSpace(lead) && AllSpace(trail)
    ensures '<' !in lead + Show(i) + trail
  {
    var n: nat := if i < 0 then -i else i;
    DecimalDigits(n);
    assert '<' !in Decimal(n);
    assert '<' !in Show(i);
    assert !IsSpace('<');
  }

  /** A reply without the grade tags leaves `''` as the grade, which `int`
      rejects: the record cannot be scored. */
  lemma GradeMissing(rec: Record, response: string)
    requires !Contains(response, OpenTag(GradeKey)) || !Contains(response, CloseTag(GradeKey))
    ensures Annotate(rec, response)[GradeKey] == Str("")
    ensures GradeOf(Annotate(rec, response)) == None
  {
    XmlMissing(GradeKey, response);
  }
}
