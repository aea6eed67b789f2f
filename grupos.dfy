/** The per-group facade the pages use: read-only lookups over the users and the
    allocation tables, and two constant answers. None of them writes. */
module Grupos {
  import opened Wrappers
  import opened Schema
  import opened Seqs
  import opened Database

  /** The congratulation text of the configuration module. */
  const TextoParabens: string :=
    "\nParabéns pela aprovação!\nCom certeza não foi fácil chegar aqui. E estamos MUITO perto de enfim realizar o nosso maior desejo: se tornar Auditor do Estado do Rio Grande do Sul.\n\nSei que essa é uma hora de ansiedade, mas conseguiremos passar por ela. E logo logo estaremos numa churrascaria comemorando a nomeação!\n"

  /** The row test `df['grupo'] == grupo`. */
  function GrupoIs(g: string): Row -> bool
  {
    (r: Row) => TextIs(r, Grupo, g)
  }

  /** Rows of the group with quota `c`. */
  function GrupoCotaIs(g: string, c: string): Row -> bool
  {
    (r: Row) => TextIs(r, Grupo, g) && TextIs(r, Cota, c)
  }

  /** Rows of the group with a quota other than `c`. */
  function GrupoOutraCota(g: string, c: string): Row -> bool
  {
    (r: Row) => TextIs(r, Grupo, g) && !TextIs(r, Cota, c)
  }

  /** `mostrarEstatisticas`: succeeds with an empty table. */
  function MostrarEstatisticas(): (r: Reply<seq<Row>>)
    ensures r.sucesso && r.resultado == []
  {
    Reply(true, [])
  }

  /** `mostrarMensagens`: succeeds with the congratulation text. */
  function MostrarMensagens(): (r: Reply<string>)
    ensures r.sucesso && r.resultado == TextoParabens
  {
    Reply(true, TextoParabens)
  }

  /** `verQuantidade`: the number of registered users of the group, whatever their
      quota; the mask over the frame of an empty table raises KeyError, since that
      frame has no columns. */
  function VerQuantidade(usuarios: seq<Row>, g: string): (r: Result<Reply<nat>, Raised>)
    ensures r.Failure? <==> usuarios == []
    ensures r.Failure? ==> r.error == KeyError
    ensures r.Success? ==> r.value.sucesso && r.value.resultado <= |usuarios|
    ensures r.Success? ==>
              (r.value.resultado == 0 <==> forall i :: 0 <= i < |usuarios| ==> !TextIs(usuarios[i], Grupo, g))
  {
    if usuarios == [] then Failure(KeyError)
    else
      NenhumDoGrupo(usuarios, g);
      Success(Reply(true, |Filter(usuarios, GrupoIs(g))|))
  }

  /** No row of the group is selected exactly when no row has the group. */
  lemma NenhumDoGrupo(usuarios: seq<Row>, g: string)
    ensures Filter(usuarios, GrupoIs(g)) == [] <==> forall i :: 0 <= i < |usuarios| ==> !TextIs(usuarios[i], Grupo, g)
  {
    if forall i :: 0 <= i < |usuarios| ==> !TextIs(usuarios[i], Grupo, g) {
      FilterNone(usuarios, GrupoIs(g));
    }
  }

  /** The count of a group is the count of its users of quota `c` plus the count of
      its users of every other quota: quota plays no part in it. */
  lemma VerQuantidadeAcrossQuotas(usuarios: seq<Row>, g: string, c: string)
    requires usuarios != []
    ensures VerQuantidade(usuarios, g).value.resultado
         == |Filter(usuarios, GrupoCotaIs(g, c))| + |Filter(usuarios, GrupoOutraCota(g, c))|
  {
    FilterSplit(usuarios, GrupoIs(g), GrupoCotaIs(g, c), GrupoOutraCota(g, c), (x: Row) => TextIs(x, Cota, c));
  }

  /** One more registered user raises the count of their own group by one and leaves
      every other group's count; after the first user the count exists. */
  lemma VerQuantidadeAppend(usuarios: seq<Row>, r: Row, g: string)
    ensures VerQuantidade(usuarios + [r], g).Success?
    ensures VerQuantidade(usuarios + [r], g).value.resultado
         == (if usuarios == [] then 0 else VerQuantidade(usuarios, g).value.resultado)
            + (if TextIs(r, Grupo, g) then 1 else 0)
  {
    FilterAppend(usuarios, [r], GrupoIs(g));
    assert Filter([r], GrupoIs(g)) == if TextIs(r, Grupo, g) then [r] else [];
  }

  /** `mostrarLink`: the link of the first allocation row of the group, whatever its
      quota; `[0]` raises IndexError when the group has no row. */
  function MostrarLink(grupos: seq<Row>, g: string): (r: Result<Reply<string>, Raised>)
    ensures r.Failure? <==> forall i :: 0 <= i < |grupos| ==> !TextIs(grupos[i], Grupo, g)
    ensures r.Failure? ==> r.error == IndexError
    ensures r.Success? ==> r.value.sucesso
                           && r.value.resultado == TextAt(grupos[FirstIndex(grupos, GrupoIs(g))], Link)
  {
    var s := Select(Grupos, grupos, map[Grupo := Text(g)]);
    FilterCongruent(grupos, Where(map[Grupo := Text(g)]), GrupoIs(g));
    if s == [] then Failure(IndexError)
    else
      assert s[0] in grupos && GrupoIs(g)(s[0]);
      FilterHead(grupos, GrupoIs(g));
      Success(Reply(true, TextAt(s[0], Link)))
  }
}
