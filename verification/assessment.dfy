/** The two gradings `main.py` runs side by side over one list of
    question/answer records: the candidate assessment and the interviewer
    assessment. Each grading annotates every record with the grade and skill
    read from its own reply. */
module Assessment {
  import opened PyStr
  import opened ResponseParser
  import opened Records

  /** The two lists the program shows: the candidate assessment and the
      interviewer audit. */
  datatype Views = Views(candidate: seq<Record>, interviewer: seq<Record>)

  /** A grading reply in the requested format carrying grade text `g`. */
  function GradeReply(g: string): string {
    OpenTag(GradeKey) + g + CloseTag(GradeKey)
  }

  /** As written: both gradings are handed the same list and annotate its
      record objects in place, so the two views are one list. Each
      grading's pair of writes (`grade`, then `skill`) is taken as one step;
      for record `k`, the grading whose pair comes last (the candidate
      grading when `candidateLast[k]`) decides what BOTH views show. */
  function AssessShared(arr: seq<Record>, cand: seq<string>, inter: seq<string>,
                        candidateLast: seq<bool>): (v: Views)
    requires |cand| == |arr| && |inter| == |arr| && |candidateLast| == |arr|
    ensures v.candidate == v.interviewer && |v.candidate| == |arr|
    ensures forall k :: 0 <= k < |arr| ==>
              v.candidate[k] == Annotate(arr[k], if candidateLast[k] then cand[k] else inter[k])
  {
    var shared := seq(|arr|, k requires 0 <= k < |arr| =>
      if candidateLast[k] then Annotate(Annotate(arr[k], inter[k]), cand[k])
      else Annotate(Annotate(arr[k], cand[k]), inter[k]));
    assert forall k :: 0 <= k < |arr| ==>
             shared[k] == Annotate(arr[k], if candidateLast[k] then cand[k] else inter[k]) by {
      forall k | 0 <= k < |arr|
        ensures shared[k] == Annotate(arr[k], if candidateLast[k] then cand[k] else inter[k])
      {
        AnnotateTwice(arr[k], inter[k], cand[k]);
        AnnotateTwice(arr[k], cand[k], inter[k]);
      }
    }
    Views(shared, shared)
  }

  /** The discrepancy: when the interviewer grading finishes last, the
      candidate assessment of a record shows the interviewer's grade. With
      the replies `<grade>5</grade>` (candidate) and `<grade>1</grade>`
      (interviewer), the candidate view shows "1", not "5". */
  lemma SharedGradeLost(rec: Record)
    ensures ParseXmlData(GradeKey, GradeReply("5")) == "5"
    ensures AssessShared([rec], [GradeReply("5")], [GradeReply("1")], [false]).candidate[0][GradeKey]
            == Str("1")
  {
    GradeReplyReads("5");
    GradeReplyReads("1");
  }

  /** A grading reply reads back the trimmed grade text it carries. */
  lemma GradeReplyReads(g: string)
    requires '<' !in g && Trimmed(g)
    ensures ParseXmlData(GradeKey, GradeReply(g)) == g
  {
    XmlEmbedded("", GradeKey, g, "");
    assert "" + OpenTag(GradeKey) + g + CloseTag(GradeKey) + "" == GradeReply(g);
    StripTrimmed(g);
  }

  /** Corrected: each grading annotates its own copy of the records, so each
      view holds exactly what its own replies say. */
  function AssessSeparate(arr: seq<Record>, cand: seq<string>, inter: seq<string>): (v: Views)
    requires |cand| == |arr| && |inter| == |arr|
    ensures |v.candidate| == |arr| && |v.interviewer| == |arr|
    ensures forall k :: 0 <= k < |arr| ==>
              AnnotatedFrom(v.candidate[k], cand[k]) && AnnotatedFrom(v.interviewer[k], inter[k])
    ensures forall k, key :: 0 <= k < |arr| && key in arr[k] && key != GradeKey && key != SkillKey ==>
              && key in v.candidate[k] && v.candidate[k][key] == arr[k][key]
              && key in v.interviewer[k] && v.interviewer[k][key] == arr[k][key]
  {
    Views(seq(|arr|, k requires 0 <= k < |arr| => Annotate(arr[k], cand[k])),
          seq(|arr|, k requires 0 <= k < |arr| => Annotate(arr[k], inter[k])))
  }

  /** Corrected, neither view depends on the other grading's replies. */
  lemma SeparateViewsIndependent(arr: seq<Record>, cand: seq<string>, inter: seq<string>,
                                 cand2: seq<string>, inter2: seq<string>)
    requires |cand| == |arr| && |inter| == |arr| && |cand2| == |arr| && |inter2| == |arr|
    ensures AssessSeparate(arr, cand, inter).candidate == AssessSeparate(arr, cand, inter2).candidate
    ensures AssessSeparate(arr, cand, inter).interviewer == AssessSeparate(arr, cand2, inter).interviewer
  {
  }

  /** Corrected, the replies of `SharedGradeLost` are kept apart: the
      candidate view shows "5" and the interviewer view shows "1". */
  lemma SeparateGradeKept(rec: Record)
    ensures var v := AssessSeparate([rec], [GradeReply("5")], [GradeReply("1")]);
            v.candidate[0][GradeKey] == Str("5") && v.interviewer[0][GradeKey] == Str("1")
  {
    GradeReplyReads("5");
    GradeReplyReads("1");
  }
}
