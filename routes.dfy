/** The public message board: publishing a message as the fixed test user and listing
    every message, newest first. It works on its own two tables, whose records are
    narrower than the ones of the main route set. */
module Publico {
  import opened Seqs
  import opened Api
  import opened Text

  datatype UsuarioPublico = UsuarioPublico(id: nat, nombre: string, email: string, contrasena: string)

  datatype MensajePublico = MensajePublico(id: nat, texto: string, fecha: Timestamp, usuarioId: nat)

  /** An entry of the listing: `usuario` is the author's name. */
  datatype MensajeListado = MensajeListado(id: nat, texto: string, fecha: Timestamp, usuario: string)

  /** The user every message is published as; there is no authentication here. */
  const UsuarioPruebaId: nat := 1

  /** The longest message accepted, counted in characters after stripping. */
  const MaxLength: nat := 2000

  function MensajeKey(m: MensajePublico): nat { m.id }
  function MensajeFecha(m: MensajePublico): int { m.fecha }
  function ListadoFecha(l: MensajeListado): int { l.fecha }

  /** `data.get('texto', '')`. */
  function TextoDe(data: map<string, string>): string
  {
    if "texto" in data then data["texto"] else ""
  }

  /** A text as the board stores it: not empty, at most `MaxLength` characters, with
      no white space at either end (so stripping it again changes nothing). */
  predicate TextoValido(t: string)
  {
    t != [] && |t| <= MaxLength && !IsSpace(t[0]) && !IsSpace(t[|t| - 1])
  }

  /** The text checks of `publicar_mensaje`, in their order: the stripped text must not
      be empty and must not exceed `MaxLength` characters. */
  function ValidarTexto(data: map<string, string>): (r: Result<string>)
    ensures r.Ok? ==> r.value == Strip(TextoDe(data)) && TextoValido(r.value)
    ensures r == Err(EmptyText) <==> forall k :: 0 <= k < |TextoDe(data)| ==> IsSpace(TextoDe(data)[k])
    ensures r == Err(TextTooLong) <==> |Strip(TextoDe(data))| > MaxLength
    ensures r.Err? ==> r.error == EmptyText || r.error == TextTooLong
  {
    var texto := Strip(TextoDe(data));
    if texto == [] then Err(EmptyText)
    else if |texto| > MaxLength then Err(TextTooLong)
    else Ok(texto)
  }

  /** A text of exactly `MaxLength` characters with no white space at its ends is
      accepted unchanged; one character more is refused. */
  lemma MaxLengthBoundary(t: string, c: char)
    requires |t| == MaxLength && !IsSpace(t[0]) && !IsSpace(t[|t| - 1]) && !IsSpace(c)
    ensures ValidarTexto(map["texto" := t]) == Ok(t)
    ensures ValidarTexto(map["texto" := t + [c]]) == Err(TextTooLong)
  {
    StripKeeps(t);
    var t' := t + [c];
    assert t'[0] == t[0] && t'[|t'| - 1] == c;
    StripKeeps(t');
  }

  function ConIdPublico(id: nat): UsuarioPublico -> bool
  {
    (u: UsuarioPublico) => u.id == id
  }

  predicate UsuarioExiste(us: seq<UsuarioPublico>, id: nat)
  {
    exists k :: 0 <= k < |us| && us[k].id == id
  }

  /** `m.usuario.nombre`: the name of the first user with that id. The board only
      stores messages of existing users, so the empty name is never produced there. */
  function NombreDe(us: seq<UsuarioPublico>, id: nat): (n: string)
    ensures UsuarioExiste(us, id) ==> exists u :: u in us && u.id == id && n == u.nombre
  {
    match FindFirst(us, ConIdPublico(id))
    case Some(k) => us[k].nombre
    case None => ""
  }

  /** The listing entry of one message. */
  function Entrada(us: seq<UsuarioPublico>, m: MensajePublico): (l: MensajeListado)
    ensures l.id == m.id && l.texto == m.texto && l.fecha == m.fecha
    ensures UsuarioExiste(us, m.usuarioId) ==> exists u :: u in us && u.id == m.usuarioId && l.usuario == u.nombre
  {
    MensajeListado(m.id, m.texto, m.fecha, NombreDe(us, m.usuarioId))
  }

  /** The entries of `ms`, in the order given. */
  function Entradas(us: seq<UsuarioPublico>, ms: seq<MensajePublico>): seq<MensajeListado>
    decreases |ms|
  {
    if ms == [] then [] else Entradas(us, ms[..|ms| - 1]) + [Entrada(us, ms[|ms| - 1])]
  }

  lemma {:induction false} EntradasItems(us: seq<UsuarioPublico>, ms: seq<MensajePublico>)
    ensures var ls := Entradas(us, ms);
      |ls| == |ms| && forall k :: 0 <= k < |ms| ==> ls[k] == Entrada(us, ms[k])
    decreases |ms|
  {
    if ms != [] {
      var init := ms[..|ms| - 1];
      EntradasItems(us, init);
      var ls := Entradas(us, ms);
      var ls0 := Entradas(us, init);
      forall k | 0 <= k < |ms| ensures ls[k] == Entrada(us, ms[k]) {
        if k < |ms| - 1 {
          assert init[k] == ms[k];
          assert ls[k] == ls0[k];
        }
      }
    }
  }

  /** The listing: every message, newest first. */
  function Listado(us: seq<UsuarioPublico>, ms: seq<MensajePublico>): seq<MensajeListado>
  {
    Entradas(us, SortDesc(ms, MensajeFecha))
  }

  /** The listing has one entry per stored message, newest first: each entry is the
      entry of a stored message, and each stored message has one. */
  lemma ListadoSpec(us: seq<UsuarioPublico>, ms: seq<MensajePublico>)
    ensures var ls := Listado(us, ms);
      && |ls| == |ms|
      && SortedDesc(ls, ListadoFecha)
      && (forall i :: 0 <= i < |ls| ==> exists m :: m in ms && ls[i] == Entrada(us, m))
      && (forall m :: m in ms ==> exists i :: 0 <= i < |ls| && ls[i] == Entrada(us, m))
  {
    var orden := SortDesc(ms, MensajeFecha);
    EntradasItems(us, orden);
    ListadoSorted(us, orden);
    ListadoSound(us, ms);
    ListadoComplete(us, ms);
  }

  lemma ListadoSorted(us: seq<UsuarioPublico>, orden: seq<MensajePublico>)
    requires SortedDesc(orden, MensajeFecha)
    ensures SortedDesc(Entradas(us, orden), ListadoFecha)
  {
    var ls := Entradas(us, orden);
    EntradasItems(us, orden);
    forall a, b | 0 <= a < b < |ls| ensures ls[a].fecha >= ls[b].fecha {
      assert MensajeFecha(orden[a]) >= MensajeFecha(orden[b]);
    }
  }

  lemma ListadoSound(us: seq<UsuarioPublico>, ms: seq<MensajePublico>)
    ensures var ls := Listado(us, ms);
      forall i :: 0 <= i < |ls| ==> exists m :: m in ms && ls[i] == Entrada(us, m)
  {
    var orden := SortDesc(ms, MensajeFecha);
    var ls := Entradas(us, orden);
    EntradasItems(us, orden);
    forall i | 0 <= i < |ls| ensures exists m :: m in ms && ls[i] == Entrada(us, m) {
      assert orden[i] in multiset(orden);
      assert ls[i] == Entrada(us, orden[i]);
    }
  }

  lemma ListadoComplete(us: seq<UsuarioPublico>, ms: seq<MensajePublico>)
    ensures var ls := Listado(us, ms);
      forall m :: m in ms ==> exists i :: 0 <= i < |ls| && ls[i] == Entrada(us, m)
  {
    var orden := SortDesc(ms, MensajeFecha);
    var ls := Entradas(us, orden);
    EntradasItems(us, orden);
    assert ls == Listado(us, ms);
    forall m | m in ms ensures exists i :: 0 <= i < |ls| && ls[i] == Entrada(us, m) {
      assert m in multiset(orden);
      var k :| 0 <= k < |orden| && orden[k] == m;
      assert ls[k] == Entrada(us, m);
    }
  }

  /** The two tables of the board. Users are not created through the board. */
  class Muro {
    var usuarios: seq<UsuarioPublico>
    var mensajes: seq<MensajePublico>
    var nextMensajeId: nat

    /** Message ids are unique and fresh, every message names an existing user, and
        every stored text passed the checks. */
    ghost predicate Valid()
      reads this
    {
      && FreshKeys(mensajes, MensajeKey, nextMensajeId)
      && (forall m :: m in mensajes ==> UsuarioExiste(usuarios, m.usuarioId) && TextoValido(m.texto))
    }

    constructor (usuarios: seq<UsuarioPublico>)
      ensures Valid()
      ensures this.usuarios == usuarios && mensajes == []
    {
      this.usuarios := usuarios;
      mensajes := [];
      nextMensajeId := 1;
    }

    /** POST /mensajes. A message that fails the text checks is refused before the
        test user is looked up; a missing test user is refused next; otherwise the
        stripped text is stored as a new message of the test user. */
    method PublicarMensaje(data: map<string, string>, now: Timestamp) returns (r: Result<()>)
      requires Valid()
      modifies this
      ensures Valid()
      ensures r.Err? ==> unchanged(this)
      ensures ValidarTexto(data).Err? ==> r == Err(ValidarTexto(data).error)
      ensures ValidarTexto(data).Ok? && !UsuarioExiste(old(usuarios), UsuarioPruebaId) ==> r == Err(UserNotFound)
      ensures ValidarTexto(data).Ok? && UsuarioExiste(old(usuarios), UsuarioPruebaId) ==>
        && r == Ok(())
        && mensajes == old(mensajes) + [MensajePublico(old(nextMensajeId), ValidarTexto(data).value, now, UsuarioPruebaId)]
        && nextMensajeId == old(nextMensajeId) + 1
        && usuarios == old(usuarios)
    {
      var v := ValidarTexto(data);
      if v.Err? {
        return Err(v.error);
      }
      var u := FindFirst(usuarios, ConIdPublico(UsuarioPruebaId));
      if u.None? {
        assert !UsuarioExiste(usuarios, UsuarioPruebaId) by {
          forall k | 0 <= k < |usuarios| ensures usuarios[k].id != UsuarioPruebaId {
            assert !ConIdPublico(UsuarioPruebaId)(usuarios[k]);
          }
        }
        return Err(UserNotFound);
      }
      assert ConIdPublico(UsuarioPruebaId)(usuarios[u.value]);
      var m := MensajePublico(nextMensajeId, v.value, now, UsuarioPruebaId);
      FreshKeysAppend(mensajes, MensajeKey, nextMensajeId, m);
      assert UsuarioExiste(usuarios, UsuarioPruebaId) && TextoValido(m.texto);
      forall x | x in mensajes + [m] ensures UsuarioExiste(usuarios, x.usuarioId) && TextoValido(x.texto) {
        if x != m { assert x in mensajes; }
      }
      mensajes := mensajes + [m];
      nextMensajeId := nextMensajeId + 1;
      r := Ok(());
    }

    /** GET /mensajes. */
    method ListarMensajes() returns (resultado: seq<MensajeListado>)
      requires Valid()
      ensures resultado == Listado(usuarios, mensajes)
    {
      var orden := SortDesc(mensajes, MensajeFecha);
      resultado := [];
      var i := 0;
      while i < |orden|
        invariant 0 <= i <= |orden|
        invariant resultado == Entradas(usuarios, orden[..i])
      {
        var m := orden[i];
        assert orden[..i + 1][..i] == orden[..i];
        resultado := resultado + [MensajeListado(m.id, m.texto, m.fecha, NombreDe(usuarios, m.usuarioId))];
        i := i + 1;
      }
      assert orden[..i] == orden;
    }
  }
}
