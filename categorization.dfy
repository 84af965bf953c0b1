/**
 * The transaction categorizer (ML/TransactionCategorizer.cs): a model that
 * may or may not be present, predictions that fall back to "Uncategorized",
 * and retraining on every stored transaction that has a category. The
 * machine-learning pipeline itself is abstract: `fit` turns training rows
 * into a model and `apply` asks a model for a label.
 */
module Categorization {
  import opened Wrappers
  import opened Models

  /** One training row (TransactionInput): description, amount and category. */
  datatype Example = Example(description: string, amount: real, category: string)

  function ToExample(t: Transaction): Example {
    Example(t.description, t.amount, t.category)
  }

  /**
   * The rows Train learns from: every stored transaction, of every user,
   * whose category is not empty, copied in table order.
   */
  function TrainingExamples(ts: seq<Transaction>): (ex: seq<Example>)
    ensures |ex| <= |ts|
    ensures forall k :: 0 <= k < |ex| ==> ex[k].category != []
    ensures ex == [] <==> forall i :: 0 <= i < |ts| ==> ts[i].category == []
  {
    if ts == [] then []
    else
      var rest := TrainingExamples(ts[1..]);
      assert rest == [] <==> forall i :: 1 <= i < |ts| ==> ts[i].category == [] by {
        assert forall i :: 1 <= i < |ts| ==> ts[i] == ts[1..][i - 1];
      }
      if ts[0].category != [] then [ToExample(ts[0])] + rest else rest
  }

  /** An example is selected exactly when some stored row with a category copies to it. */
  lemma {:induction false} TrainingExamplesSelect(ts: seq<Transaction>, e: Example)
    ensures e in TrainingExamples(ts) <==> exists i :: 0 <= i < |ts| && ts[i].category != [] && ToExample(ts[i]) == e
  {
    if ts != [] {
      TrainingExamplesSelect(ts[1..], e);
      assert forall i :: 1 <= i < |ts| ==> ts[i] == ts[1..][i - 1];
      if exists i :: 0 <= i < |ts| && ts[i].category != [] && ToExample(ts[i]) == e {
        var i :| 0 <= i < |ts| && ts[i].category != [] && ToExample(ts[i]) == e;
        if i > 0 {
          assert ts[1..][i - 1] == ts[i];
        }
      }
    }
  }

  /** Selection keeps table order: the examples of a concatenation are the concatenated examples. */
  lemma {:induction false} TrainingExamplesAppend(a: seq<Transaction>, b: seq<Transaction>)
    ensures TrainingExamples(a + b) == TrainingExamples(a) + TrainingExamples(b)
  {
    if a != [] {
      assert (a + b)[0] == a[0] && (a + b)[1..] == a[1..] + b;
      TrainingExamplesAppend(a[1..], b);
      var head := if a[0].category != [] then [ToExample(a[0])] else [];
      assert TrainingExamples(a + b) == head + TrainingExamples(a[1..] + b);
      assert TrainingExamples(a) == head + TrainingExamples(a[1..]);
    } else {
      assert a + b == b;
    }
  }

  /**
   * The categorizer. `model` is `_model`, `predictor` is `_predictor` (the
   * prediction engine built from the model, represented by that model), and
   * `modelFile` is the content of ML/transactionModel.zip (None when absent).
   */
  class TransactionCategorizer<M> {
    const db: Database
    const fit: seq<Example> -> M
    const apply: (M, string, real) -> Option<string>
    var model: Option<M>
    var predictor: Option<M>
    var modelFile: Option<M>

    /** The engine is always built from the current model, and the saved file holds that model. */
    ghost predicate Valid()
      reads this
    {
      predictor == model && modelFile == model
    }

    /** Loads the saved model and builds a predictor when the model file exists. */
    constructor (db: Database, modelFile: Option<M>, fit: seq<Example> -> M, apply: (M, string, real) -> Option<string>)
      ensures Valid()
      ensures this.db == db && this.fit == fit && this.apply == apply && this.modelFile == modelFile
      ensures predictor.Some? <==> modelFile.Some?
      ensures model == modelFile
    {
      this.db := db;
      this.fit := fit;
      this.apply := apply;
      this.modelFile := modelFile;
      model := modelFile;
      predictor := modelFile;
    }

    /** The predicted category: "Uncategorized" without a predictor or when the model gives no label. */
    function Predict(description: string, amount: real): (category: string)
      reads this
      ensures predictor.None? ==> category == Uncategorized
      ensures predictor.Some? && apply(predictor.value, description, amount).None? ==> category == Uncategorized
      ensures predictor.Some? && apply(predictor.value, description, amount).Some?
              ==> category == apply(predictor.value, description, amount).value
    {
      match predictor
      case None => Uncategorized
      case Some(engine) => apply(engine, description, amount).GetOr(Uncategorized)
    }

    /**
     * Retrains on the stored transactions that have a category. With none,
     * nothing changes; otherwise the fitted model replaces the model, is
     * saved, and a predictor is built from it.
     */
    method Train()
      requires Valid()
      modifies this
      ensures Valid()
      ensures var ex := TrainingExamples(db.transactions);
              if ex == [] then model == old(model) && predictor == old(predictor) && modelFile == old(modelFile)
              else model == Some(fit(ex)) && modelFile == Some(fit(ex)) && predictor == Some(fit(ex))
      ensures old(predictor).Some? ==> predictor.Some?
    {
      var data := TrainingExamples(db.transactions);
      if data == [] {
        return;
      }
      var fitted := fit(data);
      model := Some(fitted);
      modelFile := model;
      predictor := Some(fitted);
    }
  }
}
