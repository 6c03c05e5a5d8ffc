/** The exceptions `readfiletime` can raise, and a result type that carries them. */
module Outcome {

  /** The two Python exceptions the per-file expression can raise:
      indexing the split tokens at `[1]` (IndexError) and parsing
      or reading a date text (ValueError). Each carries the text it failed on. */
  datatype Error =
    | IndexError(baseName: string)
    | ValueError(text: string)

  datatype Result<+T> = Ok(value: T) | Err(error: Error)

  /** Results computed one after another, where the first error stops the
      computation: all the values in order, or the first error. */
  function Collect<T>(rs: seq<Result<T>>): (r: Result<seq<T>>)
    ensures r.Ok? <==> forall i :: 0 <= i < |rs| ==> rs[i].Ok?
    ensures r.Ok? ==> |r.value| == |rs|
    ensures r.Ok? ==> forall i :: 0 <= i < |rs| ==> r.value[i] == rs[i].value
  {
    if rs == [] then Ok([])
    else if rs[0].Err? then Err(rs[0].error)
    else
      var rest := Collect(rs[1..]);
      assert forall i :: 1 <= i < |rs| ==> rs[i] == rs[1..][i - 1];
      if rest.Err? then Err(rest.error) else Ok([rs[0].value] + rest.value)
  }

  /** The error Collect reports is that of the first failing result. */
  lemma {:induction false} CollectFirstError<T>(rs: seq<Result<T>>, i: nat)
    requires i < |rs|
    requires forall j :: 0 <= j < i ==> rs[j].Ok?
    requires rs[i].Err?
    ensures Collect(rs) == Err(rs[i].error)
  {
    if i > 0 {
      var rest := rs[1..];
      assert forall j :: 0 <= j < i - 1 ==> rest[j] == rs[j + 1];
      CollectFirstError(rest, i - 1);
    }
  }

  /** Collecting two runs of results one after the other is collecting their
      concatenation: the order of the values is kept. */
  lemma CollectConcat<T>(rs: seq<Result<T>>, ss: seq<Result<T>>)
    requires Collect(rs).Ok? && Collect(ss).Ok?
    ensures Collect(rs + ss) == Ok(Collect(rs).value + Collect(ss).value)
  {
    var all := rs + ss;
    assert forall i :: 0 <= i < |all| ==> all[i] == (if i < |rs| then rs[i] else ss[i - |rs|]);
    var r, expected := Collect(all), Collect(rs).value + Collect(ss).value;
    assert r.Ok?;
    assert forall i :: 0 <= i < |all| ==> r.value[i] == expected[i];
    assert r.value == expected;
  }

  /** Collect takes one result at a time: the first error stops it, and
      otherwise the first value goes in front of the rest. */
  lemma CollectCons<T>(x: Result<T>, rs: seq<Result<T>>)
    ensures x.Err? ==> Collect([x] + rs) == Err(x.error)
    ensures x.Ok? && Collect(rs).Err? ==> Collect([x] + rs) == Err(Collect(rs).error)
    ensures x.Ok? && Collect(rs).Ok? ==> Collect([x] + rs) == Ok([x.value] + Collect(rs).value)
  {
    assert ([x] + rs)[1..] == rs;
  }
}
