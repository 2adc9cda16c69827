/** The two prediction scripts: encode Author and Genre, check the target,
    train a classifier, predict. The random forest (and, in model.py, the
    seeded train/test split before it) is a parameter: a function from the
    training examples to the classifier it yields. */
module Predictor {
  import opened Outcomes
  import opened Tables
  import opened LabelEncoding

  /** The four model features, in the scripts' column order. */
  datatype Features = Features(ending: real, journey: real, author: nat, genre: nat)

  datatype Example = Example(features: Features, target: int)

  type Classifier = Features -> int

  /** The ValueError of the target check, and the ones scikit-learn raises
      when there is nothing to train on or nothing to predict. */
  datatype PredictError = InvalidTarget | NoTrainingRows | NoInputRows

  const MinTarget: int := -5
  const MaxTarget: int := 5

  /** `y.isin(range(-5, 6)) & (y != 0)`: NaN is not in the range. */
  predicate ValidTarget(myScore: Option<int>) {
    myScore.Some? && MinTarget <= myScore.value <= MaxTarget && myScore.value != 0
  }

  function AuthorLabels(t: Table): (ls: seq<Label>)
    ensures |ls| == |t| && forall i :: 0 <= i < |t| ==> ls[i] == t[i].author
  {
    seq(|t|, i requires 0 <= i < |t| => t[i].author)
  }

  function GenreLabels(t: Table): (ls: seq<Label>)
    ensures |ls| == |t| && forall i :: 0 <= i < |t| ==> ls[i] == t[i].genre
  {
    seq(|t|, i requires 0 <= i < |t| => t[i].genre)
  }

  /** The two fitted encoders' `classes_`. */
  datatype Encoders = Encoders(authors: seq<Label>, genres: seq<Label>)

  function FitEncoders(t: Table): (e: Encoders)
    ensures forall i :: 0 <= i < |t| ==> t[i].author in e.authors && t[i].genre in e.genres
  {
    var e := Encoders(Fit(AuthorLabels(t)), Fit(GenreLabels(t)));
    assert forall i :: 0 <= i < |t| ==> AuthorLabels(t)[i] == t[i].author && GenreLabels(t)[i] == t[i].genre;
    e
  }

  /** Every My Score passes the target check. */
  predicate AllValidTargets(t: Table) {
    forall i :: 0 <= i < |t| ==> ValidTarget(t[i].myScore)
  }

  /** Each row's scores, encoded author and genre, and My Score. */
  function Examples(e: Encoders, t: Table): (xs: seq<Example>)
    requires AllValidTargets(t)
    requires forall i :: 0 <= i < |t| ==> t[i].author in e.authors && t[i].genre in e.genres
    ensures |xs| == |t|
    ensures forall i :: 0 <= i < |t| ==>
              && xs[i].target == t[i].myScore.value
              && xs[i].features.ending == t[i].ending && xs[i].features.journey == t[i].journey
              && xs[i].features.author < |e.authors| && e.authors[xs[i].features.author] == t[i].author
              && xs[i].features.genre < |e.genres| && e.genres[xs[i].features.genre] == t[i].genre
  {
    seq(|t|, i requires 0 <= i < |t| =>
      Example(Features(t[i].ending, t[i].journey, Code(e.authors, t[i].author), Code(e.genres, t[i].genre)),
              t[i].myScore.value))
  }

  /** The fitted encoders and the examples the classifier is trained on. */
  datatype Trained = Trained(encoders: Encoders, examples: seq<Example>)

  /** The training set: the target check comes first, and an empty table is
      then refused by `fit`. */
  function TrainingSet(t: Table): (r: Result<Trained, PredictError>)
    ensures r == Err(InvalidTarget) <==> !AllValidTargets(t)
    ensures r == Err(NoTrainingRows) <==> AllValidTargets(t) && |t| == 0
    ensures r.Ok? ==> r.value.encoders == FitEncoders(t) && r.value.examples == Examples(FitEncoders(t), t)
  {
    if !AllValidTargets(t) then Err(InvalidTarget)
    else if |t| == 0 then Err(NoTrainingRows)
    else Ok(Trained(FitEncoders(t), Examples(FitEncoders(t), t)))
  }

  /** The master tables the batch drivers write cannot train the model until
      My Score is filled in by hand: data_cleaner.py leaves it empty and
      data_reframing.py sets it to 0, and both are refused. */
  lemma FreshScoresRejected(t: Table, i: nat)
    requires i < |t| && (t[i].myScore.None? || t[i].myScore == Some(0))
    ensures TrainingSet(t) == Err(InvalidTarget)
  {
    assert !ValidTarget(t[i].myScore);
  }

  /** One row of model_b.py's result: the input row, its encoded author and
      genre, and the predicted score. */
  datatype Prediction = Prediction(row: Row, author: nat, genre: nat, predicted: int)

  /** `predict_and_update_csv` of model_b.py: train on the training table,
      extend both encoders with the input's unseen labels, encode and predict
      every input row in order. `predict` refuses an input with no rows, after
      training has succeeded. */
  function PredictAndUpdate(training: Table, input: Table, train: seq<Example> -> Classifier)
    : (r: Result<seq<Prediction>, PredictError>)
    ensures TrainingSet(training).Err? ==> r == Err(TrainingSet(training).error)
    ensures r == Err(NoInputRows) <==> TrainingSet(training).Ok? && |input| == 0
    ensures r.Ok? <==> TrainingSet(training).Ok? && |input| > 0
    ensures r.Ok? ==>
              var e := TrainingSet(training).value.encoders;
              var xs := TrainingSet(training).value.examples;
              var authors := Extend(e.authors, AuthorLabels(input));
              var genres := Extend(e.genres, GenreLabels(input));
              && |r.value| == |input|
              && forall i :: 0 <= i < |input| ==> r.value[i] == PredictOne(authors, genres, train(xs), input[i])
  {
    match TrainingSet(training)
    case Err(err) => Err(err)
    case Ok(Trained(e, xs)) =>
      if |input| == 0 then Err(NoInputRows)
      else Ok(PredictRows(Extend(e.authors, AuthorLabels(input)), Extend(e.genres, GenreLabels(input)), train(xs), input))
  }

  /** Encode and predict one input row. */
  function PredictOne(authors: seq<Label>, genres: seq<Label>, model: Classifier, row: Row): (p: Prediction)
    requires row.author in authors && row.genre in genres
    ensures p.row == row
    ensures p.author < |authors| && authors[p.author] == row.author
    ensures p.genre < |genres| && genres[p.genre] == row.genre
    ensures p.predicted == model(Features(row.ending, row.journey, p.author, p.genre))
  {
    var a := Code(authors, row.author);
    var g := Code(genres, row.genre);
    Prediction(row, a, g, model(Features(row.ending, row.journey, a, g)))
  }

  /** Encode and predict every input row, in order. */
  function PredictRows(authors: seq<Label>, genres: seq<Label>, model: Classifier, input: Table): (ps: seq<Prediction>)
    requires forall x :: x in AuthorLabels(input) ==> x in authors
    requires forall x :: x in GenreLabels(input) ==> x in genres
    ensures |ps| == |input|
    ensures forall i :: 0 <= i < |input| ==> ps[i] == PredictOne(authors, genres, model, input[i])
  {
    RowsKnown(authors, genres, input);
    seq(|input|, i requires 0 <= i < |input| => PredictOne(authors, genres, model, input[i]))
  }

  lemma RowsKnown(authors: seq<Label>, genres: seq<Label>, input: Table)
    requires forall x :: x in AuthorLabels(input) ==> x in authors
    requires forall x :: x in GenreLabels(input) ==> x in genres
    ensures forall i :: 0 <= i < |input| ==> input[i].author in authors && input[i].genre in genres
  {
    var al := AuthorLabels(input);
    var gl := GenreLabels(input);
    forall i | 0 <= i < |input| ensures input[i].author in authors && input[i].genre in genres {
      assert al[i] in al && gl[i] in gl;
    }
  }

  /** An author (or genre) text seen in training is given the same code in
      prediction as in training; an author not seen gets a code past every
      training code. */
  lemma PredictionCodesAgree(training: Table, input: Table, train: seq<Example> -> Classifier, i: nat, j: nat)
    requires PredictAndUpdate(training, input, train).Ok?
    requires i < |input| && j < |training|
    ensures var ps := PredictAndUpdate(training, input, train).value;
            var e := TrainingSet(training).value.encoders;
            var xs := TrainingSet(training).value.examples;
            && (input[i].author.Some? && input[i].author == training[j].author ==> ps[i].author == xs[j].features.author)
            && (input[i].genre.Some? && input[i].genre == training[j].genre ==> ps[i].genre == xs[j].features.genre)
            && (!Found(e.authors, input[i].author) ==> ps[i].author >= |e.authors|)
  {
    var ps := PredictAndUpdate(training, input, train).value;
    var e := TrainingSet(training).value.encoders;
    var xs := TrainingSet(training).value.examples;
    var authors := Extend(e.authors, AuthorLabels(input));
    var genres := Extend(e.genres, GenreLabels(input));
    CodeLast(authors, input[i].author, ps[i].author);
    CodeLast(genres, input[i].genre, ps[i].genre);
    assert input[i].author in AuthorLabels(input);
    if input[i].author.Some? && input[i].author == training[j].author {
      ExtendKeepsCodes(e.authors, AuthorLabels(input), input[i].author);
      CodeLast(e.authors, training[j].author, xs[j].features.author);
    }
    if input[i].genre.Some? && input[i].genre == training[j].genre {
      ExtendKeepsCodes(e.genres, GenreLabels(input), input[i].genre);
      CodeLast(e.genres, training[j].genre, xs[j].features.genre);
    }
    if !Found(e.authors, input[i].author) {
      ExtendUnseenCode(e.authors, AuthorLabels(input), input[i].author);
    }
  }

  /** The size of model.py's test set: `test_size=0.2` rounds up. */
  function TestSize(n: nat): (k: nat)
    ensures n <= 5 * k < n + 5
  {
    (n + 4) / 5
  }

  /** The new book model.py scores. */
  const NewAuthor: string := "J.K. Rowling"
  const NewGenre: string := "Fantasy"
  const NewEnding: real := -4.34
  const NewJourney: real := 1.03

  /** model.py: check the targets, split off a test set (the train set must
      not be empty), train, then score one new book, encoding an author or
      genre the encoder has not seen as "unknown". */
  function PredictNewBook(table: Table, train: seq<Example> -> Classifier,
                          author: string, genre: string, ending: real, journey: real): (r: Result<int, PredictError>)
    ensures r == Err(InvalidTarget) <==> !AllValidTargets(table)
    ensures r == Err(NoTrainingRows) <==> AllValidTargets(table) && |table| <= 1
    ensures r.Ok? ==>
              var e := TrainingSet(table).value.encoders;
              var a := EncodeWithUnknown(e.authors, author).1;
              var g := EncodeWithUnknown(e.genres, genre).1;
              r.value == train(TrainingSet(table).value.examples)(Features(ending, journey, a, g))
  {
    match TrainingSet(table)
    case Err(err) => Err(err)
    case Ok(Trained(e, xs)) =>
      if |table| - TestSize(|table|) <= 0 then Err(NoTrainingRows)
      else
        var a := EncodeWithUnknown(e.authors, author).1;
        var g := EncodeWithUnknown(e.genres, genre).1;
        Ok(train(xs)(Features(ending, journey, a, g)))
  }

  /** With an author and genre not in the table, the new book is scored with
      codes one past the fitted classes of each encoder. */
  lemma UnknownBookCodes(table: Table, train: seq<Example> -> Classifier)
    requires PredictNewBook(table, train, NewAuthor, NewGenre, NewEnding, NewJourney).Ok?
    requires forall i :: 0 <= i < |table| ==> table[i].author != Some(NewAuthor) && table[i].genre != Some(NewGenre)
    ensures var e := TrainingSet(table).value.encoders;
            PredictNewBook(table, train, NewAuthor, NewGenre, NewEnding, NewJourney).value
              == train(TrainingSet(table).value.examples)(Features(NewEnding, NewJourney, |e.authors|, |e.genres|))
  {
    assert Some(NewAuthor) !in AuthorLabels(table);
    assert Some(NewGenre) !in GenreLabels(table);
  }
}
