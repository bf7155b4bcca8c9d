/** Choosing the request's input and output formats from its GET parameters. */
module ControllerFacade {
  import opened Common
  import opened ApiInterface

  /** The client sent the text `r` as the value `v`: as the value itself, or
      as element 0 of an array. */
  predicate SentAs(v: Json, r: string)
  {
    v == JStr(r) || (v.JArr? && Lookup(v.entries, KInt(0)) == Some(JStr(r)))
  }

  /** The format rule shared by `getInputFormat` and `getOutputFormat`: the
      result is the default unless the client sent a text under `param`, and
      a text sent as the value itself is taken as it is. */
  function SelectFormat(params: map<string, Json>, param: string, default: string): (r: string)
    ensures r == default || (param in params && SentAs(params[param], r))
    ensures param !in params ==> r == default
    ensures param in params && params[param].JStr? ==> r == params[param].s
  {
    if param !in params then default
    else match params[param]
      case JStr(s) => s
      case JArr(entries) =>
        (match Lookup(entries, KInt(0))
         case Some(JStr(s)) => s
         case _ => default)
      case _ => default
  }

  /** An array whose element 0 is a text gives that text. */
  lemma ArrayGivesFirst(params: map<string, Json>, param: string, default: string, entries: seq<(Key, Json)>, s: string)
    requires param in params && params[param] == JArr(entries)
    requires Lookup(entries, KInt(0)) == Some(JStr(s))
    ensures SelectFormat(params, param, default) == s
  {
  }

  /** A value that is neither a text nor an array starting with one leaves the
      default in place. */
  lemma OtherValuesGiveDefault(params: map<string, Json>, param: string, default: string)
    requires param in params
    requires forall s :: !SentAs(params[param], s)
    ensures SelectFormat(params, param, default) == default
  {
  }

  /** `getInputFormat`: the `in` parameter under the format rule, `json` by default. */
  function InputFormat(params: map<string, Json>): (r: string)
    ensures r == FormatsJson || (InputFormatParam in params && SentAs(params[InputFormatParam], r))
    ensures InputFormatParam !in params ==> r == FormatsJson
  {
    SelectFormat(params, InputFormatParam, InputFormatDefault)
  }

  /** `getOutputFormat`: the `out` parameter under the same rule, `json` by default. */
  function OutputFormat(params: map<string, Json>): (r: string)
    ensures r == FormatsJson || (OutputFormatParam in params && SentAs(params[OutputFormatParam], r))
    ensures OutputFormatParam !in params ==> r == FormatsJson
  {
    SelectFormat(params, OutputFormatParam, OutputFormatDefault)
  }

  /** The two formats are chosen independently: `in` never affects the output format. */
  lemma FormatsIndependent(params: map<string, Json>, v: Json)
    ensures OutputFormat(params[InputFormatParam := v]) == OutputFormat(params)
    ensures InputFormat(params[OutputFormatParam := v]) == InputFormat(params)
  {
  }
}
