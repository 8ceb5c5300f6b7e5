/**
 * Resolver selection and dispatch. `Custom` is chosen by the first
 * `--resolver` parameter and otherwise `Default`; both variants answer every
 * question with the default answer record. Nothing is forwarded anywhere.
 */
module DnsResolver {
  import CliParams
  import DnsQuestion
  import DnsAnswer

  datatype Resolver = Default | Custom(address: string)

  /**
   * `Resolver::from(&[CliParam])`: the first resolver parameter, found by a
   * left-to-right search, names a custom resolver.
   */
  function FromParams(params: seq<CliParams.CliParam>): (r: Resolver)
    ensures r.Default? <==> (forall i :: 0 <= i < |params| ==> !params[i].Resolver?)
    ensures r.Custom? ==> exists i :: 0 <= i < |params| && params[i] == CliParams.Resolver(r.address)
                                       && forall j :: 0 <= j < i ==> !params[j].Resolver?
  {
    if params == [] then Default
    else match params[0]
      case Resolver(value) => Custom(value)
  }

  /** `default_resolver`: one answer per question, each `Answer::for_question` of it. */
  function DefaultResolver(questions: seq<DnsQuestion.Question>): (answers: seq<DnsAnswer.Answer>)
    ensures |answers| == |questions|
    ensures forall i :: 0 <= i < |answers| ==> answers[i] == DnsAnswer.Default()
  {
    seq(|questions|, i requires 0 <= i < |questions| => DnsAnswer.ForQuestion(questions[i]))
  }

  /** `custom_resolver`: the address is not used; the answers are built as for the default resolver. */
  function CustomResolver(questions: seq<DnsQuestion.Question>, address: string): (answers: seq<DnsAnswer.Answer>)
    ensures |answers| == |questions|
    ensures forall i :: 0 <= i < |answers| ==> answers[i] == DnsAnswer.Default()
  {
    seq(|questions|, i requires 0 <= i < |questions| => DnsAnswer.ForQuestion(questions[i]))
  }

  /** `resolve_questions`: dispatch on the variant. */
  function ResolveQuestions(questions: seq<DnsQuestion.Question>, resolver: Resolver): (answers: seq<DnsAnswer.Answer>)
    ensures |answers| == |questions|
    ensures forall a :: a in answers ==> a == DnsAnswer.Default()
  {
    match resolver
    case Default => DefaultResolver(questions)
    case Custom(address) => CustomResolver(questions, address)
  }

  /** Which resolver is chosen makes no difference to the answers. */
  lemma ResolverChoiceIrrelevant(questions: seq<DnsQuestion.Question>, resolver: Resolver)
    ensures ResolveQuestions(questions, resolver) == ResolveQuestions(questions, Default)
  {
  }

  /** No questions, no answers. */
  lemma NoQuestionsNoAnswers(resolver: Resolver)
    ensures ResolveQuestions([], resolver) == []
  {
  }

  /**
   * From the command line: a custom resolver is chosen exactly when the scan
   * finds a parameter, and its address is then the first flag's value,
   * trimmed, non-empty and not starting with `--`.
   */
  lemma ResolverFromArgs(args: seq<string>)
    ensures var r := FromParams(CliParams.Params(args));
      && (r.Custom? <==> CliParams.Params(args) != [])
      && (r.Custom? ==> CliParams.IsValidValue(r.address) && r.address == CliParams.Params(args)[0].value)
  {
    CliParams.ParamsValuesValid(args);
    var ps := CliParams.Params(args);
    if ps != [] {
      assert ps[0] in ps;
    }
  }
}
