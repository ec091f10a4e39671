/** The records the question library works on, and what the library may assume
    of the two constructors it imports from `objects`. */
module Questions {

  datatype QuestionType = ShortAnswer | MultipleChoice

  /** A quiz question. The source's field `type` is called `kind` here, because
      `type` is a Dafny keyword. */
  datatype Question = Question(
    id: int,
    name: string,
    body: string,
    kind: QuestionType,
    options: seq<string>,
    expected: string,
    points: int,
    published: bool)

  /** A learner's answer to the question with id `questionId`. */
  datatype Answer = Answer(questionId: int, text: string, submitted: bool, correct: bool)

  /** `makeBlankQuestion(id, name, type)`. */
  type BlankFactory = (int, string, QuestionType) -> Question

  /** `duplicateQuestion(newId, question)`. */
  type DuplicateFactory = (int, Question) -> Question

  /** All that is assumed of `makeBlankQuestion`: the question it builds carries the
      id, name and type it was given. */
  ghost predicate BlankCarriesArguments(blank: BlankFactory) {
    forall id, name, kind :: blank(id, name, kind).id == id
      && blank(id, name, kind).name == name
      && blank(id, name, kind).kind == kind
  }

  /** All that is assumed of `duplicateQuestion`: the copy carries the new id. */
  ghost predicate DuplicateCarriesId(duplicate: DuplicateFactory) {
    forall id, q :: duplicate(id, q).id == id
  }

  // ---------------------------------------------------------------------------
  // Properties of collections, used to state what the editors preserve

  /** Some question has this id. */
  predicate HasId(qs: seq<Question>, id: int) {
    exists i :: 0 <= i < |qs| && qs[i].id == id
  }

  /** No two questions share an id (the library never enforces this). */
  predicate UniqueIds(qs: seq<Question>) {
    forall i, j :: 0 <= i < j < |qs| ==> qs[i].id != qs[j].id
  }

  /** Only multiple-choice questions carry options. */
  predicate OptionsOnlyOnMultipleChoice(qs: seq<Question>) {
    forall i :: 0 <= i < |qs| && qs[i].kind != MultipleChoice ==> qs[i].options == []
  }
}
