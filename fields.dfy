/** The label-anchored field extraction of `process_data` (main.py): nine
    independent `re.search` calls over the same request text, each of the
    form `Label:\s*(.*?)\s*NextLabel`, whose group 1 is stripped, or `None`
    when the pattern does not match. */
module FieldExtractor {
  import opened Wrappers
  import opened PyText
  import opened LazyRegex

  /** The fields whose patterns `process_data` actually applies, in the order
      it applies them. */
  datatype Field =
    | CandidateName | BirthDate | Gender | Education | University
    | TotalExperience | State | Technology | EndClient

  const ExtractionOrder: seq<Field> :=
    [CandidateName, BirthDate, Gender, Education, University,
     TotalExperience, State, Technology, EndClient]

  /** The label a field's value follows. */
  function StartLabel(f: Field): string
  {
    match f
    case CandidateName => "Candidate Name:"
    case BirthDate => "Birth date:"
    case Gender => "Gender:"
    case Education => "Education:"
    case University => "University:"
    case TotalExperience => "Total Experience in Years:"
    case State => "State:"
    case Technology => "Technology:"
    case EndClient => "End Client:"
  }

  /** The label a field's value must be followed by. The end client's pattern
      stops at `Interview Round`, without a colon. */
  function EndLabel(f: Field): string
  {
    match f
    case CandidateName => "Birth date:"
    case BirthDate => "Gender:"
    case Gender => "Education:"
    case Education => "University:"
    case University => "Total Experience in Years:"
    case TotalExperience => "State:"
    case State => "Technology:"
    case Technology => "End Client:"
    case EndClient => "Interview Round"
  }

  /** The key under which the value is stored in `data_dict`. */
  function Key(f: Field): string
  {
    match f
    case CandidateName => "candidate_name"
    case BirthDate => "birth_date"
    case Gender => "gender"
    case Education => "education"
    case University => "university"
    case TotalExperience => "total_experience"
    case State => "state_name"
    case Technology => "technology"
    case EndClient => "end_client"
  }

  /** `re.search(r"<startLabel>\s*(.*?)\s*<endLabel>", text)`, then
      `m.group(1).strip() if m else None`. */
  function ExtractBetween(text: string, startLabel: string, endLabel: string): Option<string>
  {
    SearchStrip(text, Pattern(startLabel, true, endLabel))
  }

  /** The value is absent exactly when the pattern matches nowhere in the
      text. */
  lemma ExtractBetweenAbsent(text: string, startLabel: string, endLabel: string)
    ensures ExtractBetween(text, startLabel, endLabel).None? <==> !Matches(text, Pattern(startLabel, true, endLabel))
  {
    SearchIsFirstMatch(text, Pattern(startLabel, true, endLabel));
  }

  /** Otherwise it is group 1 of the first match in Python's sense (leftmost
      start, then the longest leading `\s*`, then the shortest group 1),
      exactly as captured, since that capture has no whitespace at either end
      to strip. */
  lemma ExtractBetweenIsFirstMatch(text: string, startLabel: string, endLabel: string, p: nat, s: nat, e: nat)
    requires IsFirstMatch(text, Pattern(startLabel, true, endLabel), p, s, e)
    ensures s <= e <= |text| && ExtractBetween(text, startLabel, endLabel) == Some(text[s..e])
  {
    PaddedSearchStripIsFirstMatch(text, Pattern(startLabel, true, endLabel), p, s, e);
  }

  /** A present value comes from a first match, holds no line feed and has
      no whitespace at either end. */
  lemma ExtractBetweenShape(text: string, startLabel: string, endLabel: string)
    requires ExtractBetween(text, startLabel, endLabel).Some?
    ensures var v := ExtractBetween(text, startLabel, endLabel).value;
      && '\n' !in v
      && (v == [] || (!IsSpace(v[0]) && !IsSpace(v[|v| - 1])))
      && exists p: nat, s: nat, e: nat :: IsFirstMatch(text, Pattern(startLabel, true, endLabel), p, s, e)
  {
    var pat := Pattern(startLabel, true, endLabel);
    ExtractedShape(text, pat);
    SearchIsFirstMatch(text, pat);
    var h := Search(text, pat).value;
    assert IsFirstMatch(text, pat, h.pos, h.from, h.to);
  }

  /** The value of one field. */
  function FieldValue(text: string, f: Field): Option<string>
  {
    ExtractBetween(text, StartLabel(f), EndLabel(f))
  }

  /** The extraction statements run one after another, each storing its
      field's value; the text they search is never changed. */
  function ExtractInOrder(text: string, order: seq<Field>, acc: map<Field, Option<string>>): map<Field, Option<string>>
  {
    if order == [] then acc
    else ExtractInOrder(text, order[1..], acc[order[0] := FieldValue(text, order[0])])
  }

  /** The fields are independent: running the extractions in any order, or
      any of them twice, stores for every field run its own value and leaves
      every other entry alone, so the order of the statements does not affect
      any result. */
  lemma {:induction false} ExtractionOrderIrrelevant(text: string, order: seq<Field>, acc: map<Field, Option<string>>)
    ensures forall f :: f in ExtractInOrder(text, order, acc) <==> f in acc || f in order
    ensures forall f :: f in order ==> ExtractInOrder(text, order, acc)[f] == FieldValue(text, f)
    ensures forall f :: f in acc && f !in order ==> ExtractInOrder(text, order, acc)[f] == acc[f]
    decreases |order|
  {
    if order != [] {
      var acc' := acc[order[0] := FieldValue(text, order[0])];
      ExtractionOrderIrrelevant(text, order[1..], acc');
      forall f ensures f in order <==> f == order[0] || f in order[1..] {
        if f in order {
          var i :| 0 <= i < |order| && order[i] == f;
          assert i == 0 || order[1..][i - 1] == f;
        }
      }
    }
  }

  /** The values `process_data` computes, by key. */
  function ExtractFields(text: string): (m: map<Field, Option<string>>)
  {
    ExtractInOrder(text, ExtractionOrder, map[])
  }

  /** Every field is present in the result, with the value of its own
      pattern over the whole text. */
  lemma ExtractFieldsValues(text: string, f: Field)
    ensures f in ExtractFields(text) && ExtractFields(text)[f] == FieldValue(text, f)
  {
    ExtractionOrderIrrelevant(text, ExtractionOrder, map[]);
    assert f in ExtractionOrder;
  }
}
