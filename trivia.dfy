/** The request handlers of the trivia service, over an in-memory questions table and
    categories table instead of SQL. */
module Trivia {
  import opened Sequences
  import opened Pagination
  import opened Text

  // ---------------------------------------------------------------------------------------------
  // Entities

  /** A row of the questions table. */
  datatype Question = Question(id: int, question: string, answer: string, difficulty: int, category: int)

  /** A row of the categories table; `kind` is the column the service calls `type`. */
  datatype Category = Category(id: int, kind: string)

  /** How a handler ends: a success body, or `abort(404)`, `abort(422)`, or an exception that no
      handler catches (answered by the framework with its default 500 page). */
  datatype Outcome<T> = Ok(value: T) | NotFound | Unprocessable | Fault

  function QuestionId(q: Question): int { q.id }

  function CategoryId(c: Category): int { c.id }

  /** `id` is the primary key of the questions table. */
  predicate UniqueQuestionIds(questions: seq<Question>)
  {
    forall i, j :: 0 <= i < j < |questions| ==> questions[i].id != questions[j].id
  }

  /** `id` is the primary key of the categories table. */
  predicate DistinctCategoryIds(categories: seq<Category>)
  {
    forall c, d :: c in categories && d in categories && c.id == d.id ==> c == d
  }

  /** `Question.query.order_by(Question.id).all()` */
  function QuestionsById(questions: seq<Question>): seq<Question>
  {
    SortBy(QuestionId, questions)
  }

  /** `{category.id: category.type for category in selection}`: a later row overrides an earlier
      one with the same id. */
  function CategoryMap(categories: seq<Category>): (m: map<int, string>)
    ensures m.Keys == set c | c in categories :: c.id
    ensures forall id :: id in m ==> exists c :: c in categories && c.id == id && m[id] == c.kind
  {
    if categories == [] then map[]
    else
      var last := categories[|categories| - 1];
      var init := categories[..|categories| - 1];
      assert categories == init + [last];
      CategoryMap(init)[last.id := last.kind]
  }

  // ---------------------------------------------------------------------------------------------
  // GET /categories

  function RetrieveCategories(categories: seq<Category>): (o: Outcome<map<int, string>>)
    ensures o.Ok? || o.NotFound?
    ensures o.NotFound? <==> categories == []
    ensures o.Ok? ==> o.value.Keys == set c | c in categories :: c.id
    ensures o.Ok? && DistinctCategoryIds(categories) ==>
              forall c :: c in categories ==> o.value[c.id] == c.kind
  {
    var selection := SortBy(CategoryId, categories);
    SortByMembers(CategoryId, categories);
    if |selection| == 0 then NotFound
    else
      assert (set c | c in selection :: c.id) == set c | c in categories :: c.id;
      Ok(CategoryMap(selection))
  }

  // ---------------------------------------------------------------------------------------------
  // GET /questions?page=N

  datatype QuestionList = QuestionList(
    questions: seq<Question>,
    totalQuestions: nat,
    categories: map<int, string>,
    currentCategory: Option<string>)

  function RetrievePaginatedQuestions(questions: seq<Question>, categories: seq<Category>, page: int)
    : (o: Outcome<QuestionList>)
    ensures o.Ok? || o.NotFound?
    ensures o.NotFound? <==> Paginate(page, QuestionsById(questions)) == [] || categories == []
    ensures page >= 1 ==>
              (o.NotFound? <==> (page - 1) * QUESTIONS_PER_PAGE >= |questions| || categories == [])
    ensures o.Ok? ==>
              && |o.value.questions| <= QUESTIONS_PER_PAGE
              && SortedBy(QuestionId, o.value.questions)
              && (forall q :: q in o.value.questions ==> q in questions)
              && o.value.totalQuestions == |questions|
              && RetrieveCategories(categories) == Ok(o.value.categories)
              && o.value.currentCategory == None
    ensures o.Ok? && page >= 1 ==>
              o.value.questions == QuestionsById(questions)[Min((page - 1) * QUESTIONS_PER_PAGE, |questions|)
                                                            ..Min(page * QUESTIONS_PER_PAGE, |questions|)]
  {
    var selection := QuestionsById(questions);
    var current := Paginate(page, selection);
    SortByMembers(QuestionId, questions);
    PaginateSorted(QuestionId, page, selection);
    var categoryMap := CategoryMap(SortBy(CategoryId, categories));
    assert categories != [] ==> SortBy(CategoryId, categories)[0].id in categoryMap;
    if |current| == 0 || |categoryMap| == 0 then NotFound
    else Ok(QuestionList(current, |questions|, categoryMap, None))
  }

  // ---------------------------------------------------------------------------------------------
  // GET /categories/{category_id}/questions?page=N

  datatype CategoryQuestions = CategoryQuestions(
    questions: seq<Question>,
    totalQuestions: nat,
    currentCategory: string)

  /** `filter_by(category=category_id)` */
  function InCategory(categoryId: int): Question -> bool
  {
    (q: Question) => q.category == categoryId
  }

  /** `filter(Category.id == category_id)` */
  function HasId(id: int): Category -> bool
  {
    (c: Category) => c.id == id
  }

  /** The filter has no `order_by`: questions come in storage order, not in id order.
      `total_questions` counts the whole table; a missing category row makes `.first().type`
      raise, which no handler catches. */
  function RetrieveQuestionsByCategory(questions: seq<Question>, categories: seq<Category>,
                                       categoryId: int, page: int)
    : (o: Outcome<CategoryQuestions>)
    ensures o.Ok? || o.NotFound? || o.Fault?
    ensures o.NotFound? <==> Paginate(page, Filter(InCategory(categoryId), questions)) == []
    ensures page >= 1 ==>
              (o.NotFound? <==>
               (page - 1) * QUESTIONS_PER_PAGE >= |Filter(InCategory(categoryId), questions)|)
    ensures o.Fault? <==> !o.NotFound? && forall c :: c in categories ==> c.id != categoryId
    ensures o.Ok? ==>
              && 0 < |o.value.questions| <= QUESTIONS_PER_PAGE
              && (forall q :: q in o.value.questions ==> q in questions && q.category == categoryId)
              && o.value.totalQuestions == |questions|
              && exists k :: 0 <= k < |categories| && categories[k].id == categoryId &&
                             o.value.currentCategory == categories[k].kind &&
                             forall j :: 0 <= j < k ==> categories[j].id != categoryId
    ensures o.Ok? && page >= 1 ==>
              var selection := Filter(InCategory(categoryId), questions);
              o.value.questions == selection[Min((page - 1) * QUESTIONS_PER_PAGE, |selection|)
                                             ..Min(page * QUESTIONS_PER_PAGE, |selection|)]
  {
    var selection := Filter(InCategory(categoryId), questions);
    var current := Paginate(page, selection);
    if |current| == 0 then NotFound
    else
      match First(HasId(categoryId), categories)
      case None => Fault
      case Some(c) => Ok(CategoryQuestions(current, |questions|, c.kind))
  }

  /** Every question of a category that has a row is on some page of that category's listing. */
  lemma CategoryListsEveryQuestion(questions: seq<Question>, categories: seq<Category>, q: Question)
    requires q in questions && exists c :: c in categories && c.id == q.category
    ensures exists page :: page >= 1 &&
              var o := RetrieveQuestionsByCategory(questions, categories, q.category, page);
              o.Ok? && q in o.value.questions
  {
    var selection := Filter(InCategory(q.category), questions);
    assert q in selection;
    OnSomePage(selection, q);
    var page :| page >= 1 && q in Paginate(page, selection);
    var o := RetrieveQuestionsByCategory(questions, categories, q.category, page);
    assert o.Ok? && o.value.questions == Paginate(page, selection);
  }

  // ---------------------------------------------------------------------------------------------
  // POST /questions, search branch

  datatype SearchResult = SearchResult(questions: seq<Question>, totalQuestions: nat)

  /** `Question.question.ilike('%{term}%')` */
  function Matches(term: string): Question -> bool
  {
    (q: Question) => ContainsIgnoreCase(q.question, term)
  }

  /** The search is ordered by id before it is filtered and paginated; `total_questions` is the
      number of all matches. */
  function SearchQuestions(questions: seq<Question>, term: string, page: int): (r: SearchResult)
    ensures forall q :: q in r.questions ==> q in questions && ContainsIgnoreCase(q.question, term)
    ensures SortedBy(QuestionId, r.questions)
    ensures r.totalQuestions == |Filter(Matches(term), questions)|
    ensures |r.questions| <= r.totalQuestions && |r.questions| <= QUESTIONS_PER_PAGE
    ensures page >= 1 ==>
              (r.questions == [] <==> (page - 1) * QUESTIONS_PER_PAGE >= r.totalQuestions)
    ensures page >= 1 ==>
              var selection := Filter(Matches(term), QuestionsById(questions));
              && |selection| == r.totalQuestions
              && r.questions == selection[Min((page - 1) * QUESTIONS_PER_PAGE, |selection|)
                                          ..Min(page * QUESTIONS_PER_PAGE, |selection|)]
  {
    var ordered := QuestionsById(questions);
    SortByMembers(QuestionId, questions);
    var selection := Filter(Matches(term), ordered);
    FilterSorted(QuestionId, Matches(term), ordered);
    PaginateSorted(QuestionId, page, selection);
    FilterCount(Matches(term), ordered, questions);
    SearchResult(Paginate(page, selection), |selection|)
  }

  /** Every question whose text contains the term is on some page of the search. */
  lemma SearchFindsEveryMatch(questions: seq<Question>, term: string, q: Question)
    requires q in questions && ContainsIgnoreCase(q.question, term)
    ensures exists page :: page >= 1 && q in SearchQuestions(questions, term, page).questions
  {
    var selection := Filter(Matches(term), QuestionsById(questions));
    SortByMembers(QuestionId, questions);
    assert q in selection;
    OnSomePage(selection, q);
    var page :| page >= 1 && q in Paginate(page, selection);
    assert SearchQuestions(questions, term, page).questions == Paginate(page, selection);
  }

  // ---------------------------------------------------------------------------------------------
  // POST /quizzes

  /** The body fields `previous_questions` and `quiz_category['id']`; `None` when absent. */
  datatype QuizRequest = QuizRequest(previousQuestions: Option<seq<int>>, quizCategory: Option<int>)

  /** Not asked yet, and in the chosen category unless the category id is 0 ("all"). */
  predicate Eligible(previous: seq<int>, categoryId: int, q: Question)
  {
    q.id !in previous && (categoryId != 0 ==> q.category == categoryId)
  }

  function EligibleFor(previous: seq<int>, categoryId: int): Question -> bool
  {
    (q: Question) => Eligible(previous, categoryId, q)
  }

  /** The first eligible question in storage order (the query has no `order_by`). Finding none
      makes `None.format()` raise, and the bare `except` turns that into a 422; so does a missing
      body field. */
  function PlayQuiz(questions: seq<Question>, request: QuizRequest): (o: Outcome<Question>)
    ensures o.Ok? || o.Unprocessable?
    ensures o.Unprocessable? <==>
              || request.previousQuestions.None?
              || request.quizCategory.None?
              || forall q :: q in questions ==>
                   !Eligible(request.previousQuestions.value, request.quizCategory.value, q)
    ensures o.Ok? ==>
              && o.value in questions
              && o.value.id !in request.previousQuestions.value
              && (request.quizCategory.value != 0 ==> o.value.category == request.quizCategory.value)
    ensures o.Ok? ==>
              exists k :: 0 <= k < |questions| && questions[k] == o.value &&
                          forall j :: 0 <= j < k ==>
                            !Eligible(request.previousQuestions.value, request.quizCategory.value, questions[j])
  {
    match request
    case QuizRequest(None, _) => Unprocessable
    case QuizRequest(_, None) => Unprocessable
    case QuizRequest(Some(previous), Some(categoryId)) =>
      match First(EligibleFor(previous, categoryId), questions)
      case None => Unprocessable
      case Some(q) => Ok(q)
  }

  function EligibleCount(questions: seq<Question>, previous: seq<int>, categoryId: int): nat
  {
    |Filter(EligibleFor(previous, categoryId), questions)|
  }

  /** Sending back the served question's id leaves strictly fewer eligible questions. */
  lemma QuizAdvances(questions: seq<Question>, previous: seq<int>, categoryId: int)
    requires PlayQuiz(questions, QuizRequest(Some(previous), Some(categoryId))).Ok?
    ensures var q := PlayQuiz(questions, QuizRequest(Some(previous), Some(categoryId))).value;
            EligibleCount(questions, previous + [q.id], categoryId) < EligibleCount(questions, previous, categoryId)
  {
    var q := PlayQuiz(questions, QuizRequest(Some(previous), Some(categoryId))).value;
    FilterNarrows(EligibleFor(previous, categoryId), EligibleFor(previous + [q.id], categoryId), questions, q);
  }

  function Ids(served: seq<Question>): seq<int>
  {
    seq(|served|, i requires 0 <= i < |served| => served[i].id)
  }

  /** The questions a client is served when it keeps adding each served id to
      `previous_questions`: no question twice, none asked before, all in the category, and the
      quiz ends in the 422 of an exhausted selection. */
  function QuizSession(questions: seq<Question>, previous: seq<int>, categoryId: int)
    : (served: seq<Question>)
    ensures |served| <= EligibleCount(questions, previous, categoryId) <= |questions|
    ensures forall i :: 0 <= i < |served| ==> served[i] in questions && Eligible(previous, categoryId, served[i])
    ensures forall i, j :: 0 <= i < j < |served| ==> served[i].id != served[j].id
    ensures PlayQuiz(questions, QuizRequest(Some(previous + Ids(served)), Some(categoryId))).Unprocessable?
    decreases EligibleCount(questions, previous, categoryId)
  {
    var next := PlayQuiz(questions, QuizRequest(Some(previous), Some(categoryId)));
    if next.Ok? then
      var q := next.value;
      QuizAdvances(questions, previous, categoryId);
      var rest := QuizSession(questions, previous + [q.id], categoryId);
      SessionStep(questions, previous, categoryId, q, rest);
      [q] + rest
    else
      assert previous + Ids([]) == previous;
      []
  }

  /** What one more served question `q` adds to a session `rest` started after it. */
  lemma SessionStep(questions: seq<Question>, previous: seq<int>, categoryId: int,
                    q: Question, rest: seq<Question>)
    requires q in questions && Eligible(previous, categoryId, q)
    requires forall i :: 0 <= i < |rest| ==>
               rest[i] in questions && Eligible(previous + [q.id], categoryId, rest[i])
    requires forall i, j :: 0 <= i < j < |rest| ==> rest[i].id != rest[j].id
    ensures var served := [q] + rest;
            && (forall i :: 0 <= i < |served| ==> served[i] in questions && Eligible(previous, categoryId, served[i]))
            && (forall i, j :: 0 <= i < j < |served| ==> served[i].id != served[j].id)
            && previous + Ids(served) == (previous + [q.id]) + Ids(rest)
  {
    var served := [q] + rest;
    forall i | 0 <= i < |served|
      ensures served[i] in questions && Eligible(previous, categoryId, served[i])
    {
      if i > 0 { assert served[i] == rest[i - 1]; }
    }
    forall i, j | 0 <= i < j < |served| ensures served[i].id != served[j].id {
      assert served[j] == rest[j - 1];
      if i > 0 { assert served[i] == rest[i - 1]; }
    }
    assert Ids(served) == [q.id] + Ids(rest);
  }

  /** The two quiz requests of the service's own tests, on any table whose Geography (3)
      questions have the ids 13, 14 and 15 and which holds question 15: the first gets question 15;
      the second, with the category exhausted, gets a 422 (the tests expect a 200 with a null
      question). */
  lemma QuizExampleFromTests(questions: seq<Question>)
    requires forall q :: q in questions && q.category == 3 ==> q.id == 13 || q.id == 14 || q.id == 15
    requires exists q :: q in questions && q.id == 15 && q.category == 3
    ensures var o := PlayQuiz(questions, QuizRequest(Some([13, 14]), Some(3)));
            o.Ok? && o.value.id == 15 && o.value.category == 3
    ensures PlayQuiz(questions, QuizRequest(Some([13, 14, 15]), Some(3))) == Unprocessable
  {
    var q15 :| q15 in questions && q15.id == 15 && q15.category == 3;
    assert Eligible([13, 14], 3, q15);
  }

  // ---------------------------------------------------------------------------------------------
  // Error handlers

  /** The JSON body of an error response. */
  datatype ErrorBody = ErrorBody(success: bool, error: int, message: string)

  /** The three registered error handlers; any other status has none of the service's own. */
  function ErrorHandler(status: int): (r: Option<ErrorBody>)
    ensures r.Some? <==> status == 404 || status == 422 || status == 405
    ensures r.Some? ==> !r.value.success && r.value.error == status
    ensures status == 404 ==> r.value.message == "resource not found"
    ensures status == 422 ==> r.value.message == "unprocessable"
    ensures status == 405 ==> r.value.message == "method not allowed"
  {
    if status == 404 then Some(ErrorBody(false, 404, "resource not found"))
    else if status == 422 then Some(ErrorBody(false, 422, "unprocessable"))
    else if status == 405 then Some(ErrorBody(false, 405, "method not allowed"))
    else None
  }

  /** The status a handler's outcome is answered with. */
  function Status<T>(o: Outcome<T>): (s: int)
    ensures s == 200 <==> o.Ok?
    ensures ErrorHandler(s).Some? <==> o.NotFound? || o.Unprocessable?
    ensures o.NotFound? <==> s == 404
    ensures o.Unprocessable? <==> s == 422
    ensures o.Fault? <==> s == 500
  {
    match o
    case Ok(_) => 200
    case NotFound => 404
    case Unprocessable => 422
    case Fault => 500
  }

  /** A request for a page past the last one is answered with the fixed 404 body. */
  lemma BeyondLastPageAnswer(questions: seq<Question>, categories: seq<Category>, page: int)
    requires page > PageCount(|questions|)
    ensures var o := RetrievePaginatedQuestions(questions, categories, page);
            o.NotFound? && ErrorHandler(Status(o)) == Some(ErrorBody(false, 404, "resource not found"))
  {
    PageNonEmpty(QuestionsById(questions), page);
  }

  /** An exhausted quiz category is answered with the fixed 422 body. */
  lemma ExhaustedQuizAnswer(questions: seq<Question>, previous: seq<int>, categoryId: int)
    requires forall q :: q in questions ==> !Eligible(previous, categoryId, q)
    ensures var o := PlayQuiz(questions, QuizRequest(Some(previous), Some(categoryId)));
            o.Unprocessable? && ErrorHandler(Status(o)) == Some(ErrorBody(false, 422, "unprocessable"))
  {
  }

  // ---------------------------------------------------------------------------------------------
  // The store and the two handlers that change it

  /** The JSON body of `POST /questions`; `searchTerm` is `None` when absent. */
  datatype CreateRequest = CreateRequest(
    question: string,
    answer: string,
    difficulty: int,
    category: int,
    searchTerm: Option<string>)

  datatype CreateReply = Created | Searched(result: SearchResult)

  /** `if searchTerm:` — present and not the empty string. */
  predicate IsSearch(request: CreateRequest)
  {
    request.searchTerm.Some? && request.searchTerm.value != ""
  }

  /** The position of the question with id `id`, if there is one
      (`Question.query.filter(Question.id == id).one_or_none()`). */
  function IndexOfId(questions: seq<Question>, id: int): (r: Option<nat>)
    ensures r.None? <==> forall q :: q in questions ==> q.id != id
    ensures r.Some? ==> r.value < |questions| && questions[r.value].id == id
    decreases |questions|
  {
    if questions == [] then None
    else if questions[0].id == id then Some(0)
    else
      match IndexOfId(questions[1..], id)
      case None => None
      case Some(k) => Some(k + 1)
  }

  function MaxId(questions: seq<Question>): (m: int)
    ensures forall q :: q in questions ==> q.id <= m
    decreases |questions|
  {
    if questions == [] then 0
    else
      var rest := MaxId(questions[1..]);
      if questions[0].id > rest then questions[0].id else rest
  }

  /** Creating a question and then listing its category: the new question is the last of the
      category's listing, so it is on one of its pages. */
  lemma CreatedQuestionIsListed(questions: seq<Question>, created: Question)
    ensures Filter(InCategory(created.category), questions + [created]) ==
            Filter(InCategory(created.category), questions) + [created]
    ensures exists page :: page >= 1 &&
              created in Paginate(page, Filter(InCategory(created.category), questions + [created]))
  {
    FilterAppend(InCategory(created.category), questions, [created]);
    assert [created][1..] == [];
    var selection := Filter(InCategory(created.category), questions + [created]);
    assert created in selection;
    OnSomePage(selection, created);
  }

  class Store {
    var questions: seq<Question>
    var categories: seq<Category>
    /** The id the next inserted question receives (the table's auto-increment). */
    var nextId: int

    ghost predicate Valid()
      reads this
    {
      && UniqueQuestionIds(questions)
      && DistinctCategoryIds(categories)
      && forall q :: q in questions ==> q.id < nextId
    }

    constructor (initialQuestions: seq<Question>, initialCategories: seq<Category>)
      requires UniqueQuestionIds(initialQuestions) && DistinctCategoryIds(initialCategories)
      ensures Valid()
      ensures questions == initialQuestions && categories == initialCategories
    {
      questions := initialQuestions;
      categories := initialCategories;
      nextId := MaxId(initialQuestions) + 1;
    }

    /** DELETE /questions/{id}. A missing id reaches `abort(404)` inside the `try`, whose bare
        `except` turns it into a 422. */
    method DeleteQuestion(id: int) returns (o: Outcome<()>)
      requires Valid()
      modifies this
      ensures Valid()
      ensures categories == old(categories) && nextId == old(nextId)
      ensures o.Ok? || o.Unprocessable?
      ensures o.Ok? <==> exists q :: q in old(questions) && q.id == id
      ensures o.Ok? ==>
                exists k :: 0 <= k < |old(questions)| && old(questions)[k].id == id &&
                            questions == old(questions)[..k] + old(questions)[k + 1..]
      ensures forall q :: q in questions <==> q in old(questions) && q.id != id
      ensures o.Unprocessable? ==> questions == old(questions)
    {
      match IndexOfId(questions, id)
      case None =>
        o := Unprocessable;
      case Some(k) =>
        ghost var before := questions;
        questions := questions[..k] + questions[k + 1..];
        assert forall j :: 0 <= j < |questions| ==> questions[j] == before[if j < k then j else j + 1];
        assert forall j :: 0 <= j < |before| && j != k ==> before[j] in questions by {
          forall j | 0 <= j < |before| && j != k ensures before[j] in questions {
            assert before[j] == questions[if j < k then j else j - 1];
          }
        }
        o := Ok(());
    }

    /** POST /questions: a non-empty `searchTerm` searches and changes nothing; otherwise a new
        question is inserted with the four body fields as given. */
    method CreateQuestion(request: CreateRequest, page: int) returns (o: Outcome<CreateReply>)
      requires Valid()
      modifies this
      ensures Valid()
      ensures categories == old(categories)
      ensures IsSearch(request) ==>
                && questions == old(questions) && nextId == old(nextId)
                && o == Ok(Searched(SearchQuestions(old(questions), request.searchTerm.value, page)))
      ensures !IsSearch(request) ==>
                && o == Ok(Created)
                && (forall q :: q in old(questions) ==> q.id != old(nextId))
                && questions == old(questions) +
                     [Question(old(nextId), request.question, request.answer, request.difficulty, request.category)]
                && nextId > old(nextId)
    {
      if IsSearch(request) {
        o := Ok(Searched(SearchQuestions(questions, request.searchTerm.value, page)));
      } else {
        var created := Question(nextId, request.question, request.answer, request.difficulty, request.category);
        questions := questions + [created];
        nextId := nextId + 1;
        o := Ok(Created);
      }
    }
  }
}
