/** Form handling shared by the pages: the chain of early returns a submitted
    form goes through, and what the page shows afterwards. */
module Forms {
  import opened Wrappers

  /** What a page shows after a submission: `st.success` or `st.error`. */
  datatype Aviso = Sucesso(texto: string) | Erro(texto: string)

  /** One test of a validation chain and the message shown when it fails. */
  datatype Check = Check(passes: bool, message: string)

  /** The message of the first failing test, or None when every test passes: the
      behaviour of a chain of `if not ok: st.error(msg); return`. */
  function FirstFailure(checks: seq<Check>): (r: Option<string>)
    ensures r.None? <==> forall k :: 0 <= k < |checks| ==> checks[k].passes
  {
    if checks == [] then None
    else if !checks[0].passes then Some(checks[0].message)
    else FirstFailure(checks[1..])
  }

  /** The reported message is that of the first test that fails; the tests before
      it all passed. */
  lemma {:induction false} FirstFailureIsFirst(checks: seq<Check>, k: nat)
    requires k < |checks| && !checks[k].passes
    requires forall j :: 0 <= j < k ==> checks[j].passes
    ensures FirstFailure(checks) == Some(checks[k].message)
  {
    if k > 0 {
      FirstFailureIsFirst(checks[1..], k - 1);
    }
  }

  /** A chain split in two reports the first half's failure, if any, and otherwise
      the second half's. */
  lemma {:induction false} FirstFailureAppend(a: seq<Check>, b: seq<Check>)
    ensures FirstFailure(a + b) == if FirstFailure(a).Some? then FirstFailure(a) else FirstFailure(b)
  {
    if a != [] {
      assert (a + b)[1..] == a[1..] + b;
      FirstFailureAppend(a[1..], b);
    } else {
      assert a + b == b;
    }
  }
}
