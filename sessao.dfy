/** The per-browser session state the pages share. */
module Sessao {
  import opened Wrappers
  import opened Usuarios

  /** `st.session_state`: the `logado` flag, absent until a page sets it, and the
      account object of the logged-in user. */
  class Estado {
    var logado: Option<bool>
    var conta: Option<Usuario>

    constructor ()
      ensures logado == None && conta == None
    {
      logado := None;
      conta := None;
    }
  }
}
