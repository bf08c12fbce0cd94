/** The main route set: a backend object holding the five tables and the session of
    the client making the requests. Each handler is a method that checks the session
    (the `login_required` guard) where the route has it, validates, and performs one
    read-modify-write on the tables. */
module App {
  import opened Seqs
  import opened Api
  import opened Tables

  /** The invariant of the backend's tables: ids fresh and unique, emails unique, at
      most one reaction per user and message, and every row naming an existing user. */
  ghost predicate Consistente(us: seq<Usuario>, ms: seq<Mensaje>, cs: seq<Comentario>,
                              ls: seq<Like>, nextLike: nat, rs: seq<Republicacion>, nextRep: nat,
                              nextUsuario: nat, nextMensaje: nat, nextComentario: nat, sesion: Option<nat>)
  {
    && FreshKeys(us, UsuarioKey, nextUsuario)
    && FreshKeys(ms, MensajeKey, nextMensaje)
    && FreshKeys(cs, ComentarioKey, nextComentario)
    && EmailsUnique(us)
    && TablaReacciones(ls, nextLike, us, nextMensaje)
    && TablaReacciones(rs, nextRep, us, nextMensaje)
    && (sesion.Some? ==> UsuarioExiste(us, sesion.value))
    && (forall m :: m in ms ==> UsuarioExiste(us, m.usuarioId))
    && (forall c :: c in cs ==> UsuarioExiste(us, c.usuarioId))
  }

  /** Toggling the session user's like or repost of a stored message keeps the invariant. */
  lemma ConsistenteToggle(us: seq<Usuario>, ms: seq<Mensaje>, cs: seq<Comentario>,
                          ls: seq<Like>, nextLike: nat, rs: seq<Republicacion>, nextRep: nat,
                          nextUsuario: nat, nextMensaje: nat, nextComentario: nat, actual: nat, m: nat, now: Timestamp)
    requires Consistente(us, ms, cs, ls, nextLike, rs, nextRep, nextUsuario, nextMensaje, nextComentario, Some(actual))
    requires MensajeExiste(ms, m)
    ensures Consistente(us, ms, cs, Toggle(ls, actual, m, nextLike, now), if HasPair(ls, actual, m) then nextLike else nextLike + 1,
                        rs, nextRep, nextUsuario, nextMensaje, nextComentario, Some(actual))
    ensures Consistente(us, ms, cs, ls, nextLike, Toggle(rs, actual, m, nextRep, now), if HasPair(rs, actual, m) then nextRep else nextRep + 1,
                        nextUsuario, nextMensaje, nextComentario, Some(actual))
    ensures HasPair(Toggle(ls, actual, m, nextLike, now), actual, m) <==> !HasPair(ls, actual, m)
    ensures HasPair(Toggle(rs, actual, m, nextRep, now), actual, m) <==> !HasPair(rs, actual, m)
  {
    var k := BuscarMensaje(ms, m).value;
    assert MensajeKey(ms[k]) < nextMensaje;
    ToggleKeepsTabla(ls, actual, m, nextLike, now, us, nextMensaje);
    ToggleKeepsTabla(rs, actual, m, nextRep, now, us, nextMensaje);
  }

  lemma UsuarioExisteAppend(us: seq<Usuario>, u: Usuario)
    ensures forall id :: UsuarioExiste(us, id) ==> UsuarioExiste(us + [u], id)
    ensures UsuarioExiste(us + [u], u.id)
  {
    forall id | UsuarioExiste(us, id) ensures UsuarioExiste(us + [u], id) {
      var k :| 0 <= k < |us| && us[k].id == id;
      assert (us + [u])[k] == us[k];
    }
    assert (us + [u])[|us|] == u;
  }

  /** Adding a user with a fresh id and an unused email keeps the invariant: ids stay
      fresh and unique, emails unique, and every row that named an existing user still
      names one. */
  lemma AltaUsuario(us: seq<Usuario>, ms: seq<Mensaje>, cs: seq<Comentario>,
                    ls: seq<Like>, nextLike: nat, rs: seq<Republicacion>, nextRep: nat,
                    nextUsuario: nat, nextMensaje: nat, nextComentario: nat, sesion: Option<nat>, u: Usuario)
    requires Consistente(us, ms, cs, ls, nextLike, rs, nextRep, nextUsuario, nextMensaje, nextComentario, sesion)
    requires u.id == nextUsuario && !EmailRegistrado(us, u.email)
    ensures Consistente(us + [u], ms, cs, ls, nextLike, rs, nextRep, nextUsuario + 1, nextMensaje, nextComentario, sesion)
  {
    FreshKeysAppend(us, UsuarioKey, nextUsuario, u);
    UsuarioExisteAppend(us, u);
    var us' := us + [u];
    forall i, j | 0 <= i < |us'| && 0 <= j < |us'| && us'[i].email == us'[j].email ensures i == j {
      if i < |us| { assert us'[i] == us[i]; }
      if j < |us| { assert us'[j] == us[j]; }
    }
  }

  lemma {:induction false} NoRowsFor(t: seq<Reaccion>, m: nat)
    requires forall r :: r in t ==> r.mensajeId != m
    ensures ReaccionesDe(t, m) == []
    decreases |t|
  {
    if t != [] {
      assert t[0] in t;
      assert forall r :: r in t[1..] ==> r in t;
      NoRowsFor(t[1..], m);
    }
  }

  /** Items built one per row of the ordered messages keep that order, and every
      message shows up. */
  lemma FeedOrden(ms: seq<Mensaje>, orden: seq<Mensaje>, items: seq<Publicacion>)
    requires multiset(orden) == multiset(ms) && SortedDesc(orden, MensajeFecha)
    requires |items| == |orden|
    requires forall k :: 0 <= k < |items| ==> items[k].id == orden[k].id && items[k].fecha == orden[k].fecha
    ensures SortedDesc(items, PublicacionFecha)
    ensures forall m :: m in ms ==> exists i :: 0 <= i < |items| && items[i].id == m.id
  {
    forall a, b | 0 <= a < b < |items| ensures items[a].fecha >= items[b].fecha {
      assert MensajeFecha(orden[a]) >= MensajeFecha(orden[b]);
    }
    forall m | m in ms ensures exists i :: 0 <= i < |items| && items[i].id == m.id {
      assert m in multiset(orden);
      var k :| 0 <= k < |orden| && orden[k] == m;
      assert items[k].id == m.id;
    }
  }

  /** The feed items of the messages `ms`, in the order given. */
  function Vistas(us: seq<Usuario>, ls: seq<Like>, cs: seq<Comentario>, rs: seq<Republicacion>,
                  ms: seq<Mensaje>, actual: nat): seq<Publicacion>
    decreases |ms|
  {
    if ms == [] then []
    else
      var init := ms[..|ms| - 1];
      Vistas(us, ls, cs, rs, init, actual) + [VistaDe(us, ls, cs, rs, ms[|ms| - 1], actual)]
  }

  lemma {:induction false} VistasItems(us: seq<Usuario>, ls: seq<Like>, cs: seq<Comentario>, rs: seq<Republicacion>,
                                       ms: seq<Mensaje>, actual: nat)
    ensures var ps := Vistas(us, ls, cs, rs, ms, actual);
      |ps| == |ms| && forall k :: 0 <= k < |ms| ==> ps[k] == VistaDe(us, ls, cs, rs, ms[k], actual)
    decreases |ms|
  {
    if ms != [] {
      var init := ms[..|ms| - 1];
      VistasItems(us, ls, cs, rs, init, actual);
      var ps := Vistas(us, ls, cs, rs, ms, actual);
      var ps0 := Vistas(us, ls, cs, rs, init, actual);
      assert ps == ps0 + [VistaDe(us, ls, cs, rs, ms[|ms| - 1], actual)];
      forall k | 0 <= k < |ms| ensures ps[k] == VistaDe(us, ls, cs, rs, ms[k], actual) {
        if k < |ms| - 1 {
          assert init[k] == ms[k];
          assert ps[k] == ps0[k];
        }
      }
    }
  }

  lemma VistasSnoc(us: seq<Usuario>, ls: seq<Like>, cs: seq<Comentario>, rs: seq<Republicacion>,
                   orden: seq<Mensaje>, i: nat, actual: nat)
    requires i < |orden|
    ensures Vistas(us, ls, cs, rs, orden[..i + 1], actual)
            == Vistas(us, ls, cs, rs, orden[..i], actual) + [VistaDe(us, ls, cs, rs, orden[i], actual)]
  {
    assert orden[..i + 1][..i] == orden[..i];
  }

  /** The loop of the feed handler: one item per message of `orden`, appended in turn. */
  method ArmarFeed(us: seq<Usuario>, ls: seq<Like>, cs: seq<Comentario>, rs: seq<Republicacion>,
                   orden: seq<Mensaje>, actual: nat) returns (items: seq<Publicacion>)
    ensures items == Vistas(us, ls, cs, rs, orden, actual)
  {
    items := [];
    var i := 0;
    while i < |orden|
      invariant 0 <= i <= |orden|
      invariant items == Vistas(us, ls, cs, rs, orden[..i], actual)
    {
      VistasSnoc(us, ls, cs, rs, orden, i, actual);
      items := items + [VistaDe(us, ls, cs, rs, orden[i], actual)];
      i := i + 1;
    }
    assert orden[..i] == orden;
  }

  lemma OrdenMembers(ms: seq<Mensaje>)
    ensures forall m :: m in SortDesc(ms, MensajeFecha) ==> m in ms
  {
    var orden := SortDesc(ms, MensajeFecha);
    forall m | m in orden ensures m in ms { assert m in multiset(orden); }
  }

  /** The feed of the user `actual`: the items of every message, newest first. */
  function Feed(us: seq<Usuario>, ls: seq<Like>, cs: seq<Comentario>, rs: seq<Republicacion>,
                ms: seq<Mensaje>, actual: nat): seq<Publicacion>
  {
    Vistas(us, ls, cs, rs, SortDesc(ms, MensajeFecha), actual)
  }

  /** The feed has one item per message, newest first; each item is the view of a
      stored message and each stored message has an item. */
  lemma FeedSpec(us: seq<Usuario>, ls: seq<Like>, cs: seq<Comentario>, rs: seq<Republicacion>,
                 ms: seq<Mensaje>, actual: nat)
    ensures var items := Feed(us, ls, cs, rs, ms, actual);
      && |items| == |ms|
      && SortedDesc(items, PublicacionFecha)
      && (forall i :: 0 <= i < |items| ==> exists m :: m in ms && items[i] == VistaDe(us, ls, cs, rs, m, actual))
      && (forall m :: m in ms ==> exists i :: 0 <= i < |items| && items[i].id == m.id)
  {
    FeedItems(us, ls, cs, rs, ms, SortDesc(ms, MensajeFecha), Feed(us, ls, cs, rs, ms, actual), actual);
  }

  lemma FeedItems(us: seq<Usuario>, ls: seq<Like>, cs: seq<Comentario>, rs: seq<Republicacion>,
                  ms: seq<Mensaje>, orden: seq<Mensaje>, items: seq<Publicacion>, actual: nat)
    requires orden == SortDesc(ms, MensajeFecha)
    requires items == Vistas(us, ls, cs, rs, orden, actual)
    ensures |items| == |ms|
    ensures SortedDesc(items, PublicacionFecha)
    ensures forall i :: 0 <= i < |items| ==> exists m :: m in ms && items[i] == VistaDe(us, ls, cs, rs, m, actual)
    ensures forall m :: m in ms ==> exists i :: 0 <= i < |items| && items[i].id == m.id
  {
    OrdenMembers(ms);
    VistasItems(us, ls, cs, rs, orden, actual);
    forall i | 0 <= i < |items| ensures exists m :: m in ms && items[i] == VistaDe(us, ls, cs, rs, m, actual) {
      assert orden[i] in ms;
    }
    FeedOrden(ms, orden, items);
  }

  class Backend {
    /** The password digest of the hashing library. */
    const digest: Digest
    /** `datetime.strptime(s, '%Y-%m-%d').date()`; `None` when it raises. */
    const parseDate: string -> Option<Date>

    var usuarios: seq<Usuario>
    var mensajes: seq<Mensaje>
    var likes: seq<Like>
    var comentarios: seq<Comentario>
    var republicaciones: seq<Republicacion>
    /** `session['usuario_id']`, absent when nobody is logged in. */
    var sesion: Option<nat>

    // The next primary key of each table.
    var nextUsuarioId: nat
    var nextMensajeId: nat
    var nextLikeId: nat
    var nextComentarioId: nat
    var nextRepublicacionId: nat

    /** The store invariant the handlers keep: primary keys are unique and fresh, emails
        are unique, a user has at most one like and one repost per message, every row
        names an existing user, likes and reposts name a message id that was handed out,
        and the session names an existing user. */
    ghost predicate Valid()
      reads this
    {
      Consistente(usuarios, mensajes, comentarios, likes, nextLikeId, republicaciones, nextRepublicacionId,
                  nextUsuarioId, nextMensajeId, nextComentarioId, sesion)
    }

    constructor (digest: Digest, parseDate: string -> Option<Date>)
      ensures Valid()
      ensures this.digest == digest && this.parseDate == parseDate
      ensures usuarios == [] && mensajes == [] && likes == [] && comentarios == [] && republicaciones == []
      ensures sesion == None
    {
      this.digest := digest;
      this.parseDate := parseDate;
      usuarios, mensajes, likes, comentarios, republicaciones := [], [], [], [], [];
      sesion := None;
      nextUsuarioId, nextMensajeId, nextLikeId, nextComentarioId, nextRepublicacionId := 1, 1, 1, 1, 1;
    }

    /** POST /api/registro. The first missing or empty field is reported, then a taken
        email, then an unparseable birth date; only then is the user added, with the
        hash of the password and never the password itself. */
    method Registro(datos: map<string, string>, salt: string) returns (r: Result<()>)
      requires Valid()
      modifies this
      ensures Valid()
      ensures r.Err? ==> unchanged(this)
      ensures FirstMissing(datos).Some? ==> r == Err(MissingField(Required[FirstMissing(datos).value]))
      ensures FirstMissing(datos).None? && EmailRegistrado(old(usuarios), datos["email"]) ==>
        r == Err(EmailTaken)
      ensures FirstMissing(datos).None? && !EmailRegistrado(old(usuarios), datos["email"])
              && parseDate(datos["fecha_nacimiento"]).None? ==>
        r == Err(InvalidDate)
      ensures FirstMissing(datos).None? && !EmailRegistrado(old(usuarios), datos["email"])
              && parseDate(datos["fecha_nacimiento"]).Some? ==>
        && r == Ok(())
        && usuarios == old(usuarios) + [Usuario(old(nextUsuarioId), datos["nombre"], datos["apellido"], datos["email"],
                                                parseDate(datos["fecha_nacimiento"]).value,
                                                HashPassword(digest, salt, datos["contrasena"]))]
        && nextUsuarioId == old(nextUsuarioId) + 1
        && mensajes == old(mensajes) && likes == old(likes) && comentarios == old(comentarios)
        && republicaciones == old(republicaciones) && sesion == old(sesion)
        && nextMensajeId == old(nextMensajeId) && nextLikeId == old(nextLikeId)
        && nextComentarioId == old(nextComentarioId) && nextRepublicacionId == old(nextRepublicacionId)
    {
      var falta := BuscarFaltante(datos);
      if falta.Some? {
        return Err(MissingField(Required[falta.value]));
      }
      assert Present(datos, Required[0]) && Present(datos, Required[1]) && Present(datos, Required[2])
             && Present(datos, Required[3]) && Present(datos, Required[4]);
      var email := datos["email"];
      if EmailRegistrado(usuarios, email) {
        return Err(EmailTaken);
      }
      var fecha := parseDate(datos["fecha_nacimiento"]);
      if fecha.None? {
        return Err(InvalidDate);
      }
      var u := Usuario(nextUsuarioId, datos["nombre"], datos["apellido"], email, fecha.value,
                       HashPassword(digest, salt, datos["contrasena"]));
      AltaUsuario(usuarios, mensajes, comentarios, likes, nextLikeId, republicaciones, nextRepublicacionId,
                  nextUsuarioId, nextMensajeId, nextComentarioId, sesion, u);
      usuarios := usuarios + [u];
      nextUsuarioId := nextUsuarioId + 1;
      r := Ok(());
    }

    /** POST /api/login. On success the session names the user found; on failure,
        whatever the reason, the same error and the session is left as it was. */
    method Login(ident: string, pw: string) returns (r: Result<Perfil>)
      requires Valid()
      modifies this`sesion
      ensures Valid()
      ensures var a := Authenticate(usuarios, ident, pw, digest);
        && (a.Ok? ==> r == Ok(ToPerfil(a.value)) && sesion == Some(a.value.id))
        && (a.Err? ==> r == Err(InvalidCredentials) && sesion == old(sesion))
    {
      var a := Authenticate(usuarios, ident, pw, digest);
      if a.Err? {
        return Err(InvalidCredentials);
      }
      var u := a.value;
      var k :| 0 <= k < |usuarios| && usuarios[k] == u;
      sesion := Some(u.id);
      r := Ok(ToPerfil(u));
    }

    /** POST /api/logout: nobody is logged in afterwards, whoever was before. */
    method Logout()
      requires Valid()
      modifies this`sesion
      ensures Valid()
      ensures sesion == None
    {
      sesion := None;
    }

    /** GET /api/usuario/actual. */
    method ObtenerUsuarioActual() returns (r: Result<Perfil>)
      requires Valid()
      ensures sesion.None? <==> r == Err(Unauthorized)
      ensures sesion.Some? ==> r.Ok? && r.value.id == sesion.value
                                && exists u :: u in usuarios && r.value == ToPerfil(u)
    {
      if sesion.None? {
        return Err(Unauthorized);
      }
      var u := UsuarioPorId(usuarios, sesion.value);
      r := Ok(ToPerfil(u));
    }

    /** GET /api/mensajes. */
    method ObtenerMensajes() returns (r: Result<seq<Publicacion>>)
      ensures sesion.None? ==> r == Err(Unauthorized)
      ensures sesion.Some? ==> r == Ok(Feed(usuarios, likes, comentarios, republicaciones, mensajes, sesion.value))
    {
      if sesion.None? {
        return Err(Unauthorized);
      }
      var items := ArmarFeed(usuarios, likes, comentarios, republicaciones, SortDesc(mensajes, MensajeFecha), sesion.value);
      r := Ok(items);
    }

    /** POST /api/mensajes. The text is stored as given, with no emptiness or length
        check; the reply has no likes, comments or reposts, and for likes and reposts that
        agrees with the store. */
    method CrearMensaje(texto: string, now: Timestamp) returns (r: Result<MensajeCreado>)
      requires Valid()
      modifies this
      ensures Valid()
      ensures old(sesion).None? ==> r == Err(Unauthorized) && unchanged(this)
      ensures old(sesion).Some? ==>
        && mensajes == old(mensajes) + [Mensaje(old(nextMensajeId), texto, now, old(sesion).value)]
        && nextMensajeId == old(nextMensajeId) + 1
        && usuarios == old(usuarios) && likes == old(likes) && comentarios == old(comentarios)
        && republicaciones == old(republicaciones) && sesion == old(sesion)
        && nextUsuarioId == old(nextUsuarioId) && nextLikeId == old(nextLikeId)
        && nextComentarioId == old(nextComentarioId) && nextRepublicacionId == old(nextRepublicacionId)
        && r.Ok? && r.value.id == old(nextMensajeId) && r.value.texto == texto && r.value.fecha == now
        && (exists u :: u in usuarios && u.id == sesion.value && r.value.usuario == u.nombre)
        && r.value.likes == Totales(0, false) && r.value.comentarios == []
        && r.value.republicaciones == Totales(0, false)
        && |ReaccionesDe(likes, r.value.id)| == 0 && |ReaccionesDe(republicaciones, r.value.id)| == 0
    {
      if sesion.None? {
        return Err(Unauthorized);
      }
      var m := Mensaje(nextMensajeId, texto, now, sesion.value);
      FreshKeysAppend(mensajes, MensajeKey, nextMensajeId, m);
      NoRowsFor(likes, m.id);
      NoRowsFor(republicaciones, m.id);
      mensajes := mensajes + [m];
      nextMensajeId := nextMensajeId + 1;
      var autor := UsuarioPorId(usuarios, sesion.value);
      r := Ok(MensajeCreado(m.id, m.texto, m.fecha, autor.nombre, Totales(0, false), [], Totales(0, false)));
    }

    /** DELETE /api/mensajes/<id>. Only the author may delete. The relationships from a
        message to its likes, comments and reposts do not cascade, so deleting a message
        that has any of them nulls their NOT NULL `mensaje_id` and the commit fails with a
        server error, deleting nothing. */
    method EliminarMensaje(id: nat) returns (r: Result<()>)
      requires Valid()
      modifies this
      ensures Valid()
      ensures r.Err? ==> unchanged(this)
      ensures old(sesion).None? ==> r == Err(Unauthorized)
      ensures old(sesion).Some? && !MensajeExiste(old(mensajes), id) ==> r == Err(NotFound)
      ensures old(sesion).Some? && MensajeExiste(old(mensajes), id)
              && old(mensajes)[BuscarMensaje(old(mensajes), id).value].usuarioId != old(sesion).value ==>
        r == Err(Forbidden)
      ensures old(sesion).Some? && MensajeExiste(old(mensajes), id)
              && old(mensajes)[BuscarMensaje(old(mensajes), id).value].usuarioId == old(sesion).value
              && TieneReferencias(old(likes), old(comentarios), old(republicaciones), id) ==>
        r == Err(CommitFailed)
      ensures old(sesion).Some? && MensajeExiste(old(mensajes), id)
              && old(mensajes)[BuscarMensaje(old(mensajes), id).value].usuarioId == old(sesion).value
              && !TieneReferencias(old(likes), old(comentarios), old(republicaciones), id) ==>
        && r == Ok(())
        && mensajes == RemoveAt(old(mensajes), BuscarMensaje(old(mensajes), id).value)
        && !MensajeExiste(mensajes, id)
        && (forall m :: m in old(mensajes) && m.id != id ==> m in mensajes)
        && usuarios == old(usuarios) && likes == old(likes) && comentarios == old(comentarios)
        && republicaciones == old(republicaciones) && sesion == old(sesion)
        && nextUsuarioId == old(nextUsuarioId) && nextMensajeId == old(nextMensajeId)
        && nextLikeId == old(nextLikeId) && nextComentarioId == old(nextComentarioId)
        && nextRepublicacionId == old(nextRepublicacionId)
    {
      if sesion.None? {
        return Err(Unauthorized);
      }
      var found := BuscarMensaje(mensajes, id);
      if found.None? {
        return Err(NotFound);
      }
      var k := found.value;
      if mensajes[k].usuarioId != sesion.value {
        return Err(Forbidden);
      }
      if TieneReferencias(likes, comentarios, republicaciones, id) {
        return Err(CommitFailed);
      }
      DeleteRemovesExactly(mensajes, id, nextMensajeId);
      FreshKeysRemove(mensajes, MensajeKey, nextMensajeId, k);
      var rest := RemoveAt(mensajes, k);
      assert forall m :: m in rest ==> m in mensajes;
      mensajes := rest;
      r := Ok(());
    }

    /** POST /api/mensajes/<id>/like. */
    method DarLike(id: nat, now: Timestamp) returns (r: Result<Totales>)
      requires Valid()
      modifies this
      ensures Valid()
      ensures r.Err? ==> unchanged(this)
      ensures old(sesion).None? ==> r == Err(Unauthorized)
      ensures old(sesion).Some? && !MensajeExiste(old(mensajes), id) ==> r == Err(NotFound)
      ensures old(sesion).Some? && MensajeExiste(old(mensajes), id) ==>
        && likes == Toggle(old(likes), old(sesion).value, id, old(nextLikeId), now)
        && nextLikeId == (if HasPair(old(likes), old(sesion).value, id) then old(nextLikeId) else old(nextLikeId) + 1)
        && r == Ok(Totales(|ReaccionesDe(likes, id)|, !HasPair(old(likes), old(sesion).value, id)))
        && (HasPair(likes, old(sesion).value, id) <==> !HasPair(old(likes), old(sesion).value, id))
        && usuarios == old(usuarios) && mensajes == old(mensajes) && comentarios == old(comentarios)
        && republicaciones == old(republicaciones) && sesion == old(sesion)
        && nextUsuarioId == old(nextUsuarioId) && nextMensajeId == old(nextMensajeId)
        && nextComentarioId == old(nextComentarioId) && nextRepublicacionId == old(nextRepublicacionId)
    {
      if sesion.None? {
        return Err(Unauthorized);
      }
      if BuscarMensaje(mensajes, id).None? {
        return Err(NotFound);
      }
      var actual := sesion.value;
      ConsistenteToggle(usuarios, mensajes, comentarios, likes, nextLikeId, republicaciones, nextRepublicacionId,
                        nextUsuarioId, nextMensajeId, nextComentarioId, actual, id, now);
      var creada;
      likes, nextLikeId, creada := AlternarReaccion(likes, actual, id, nextLikeId, now);
      r := Ok(Totales(|ReaccionesDe(likes, id)|, creada));
    }

    /** POST /api/mensajes/<id>/comentarios. Any text is stored, and the message id is
        not looked up. */
    method Comentar(id: nat, texto: string, now: Timestamp) returns (r: Result<ComentarioVista>)
      requires Valid()
      modifies this
      ensures Valid()
      ensures old(sesion).None? ==> r == Err(Unauthorized) && unchanged(this)
      ensures old(sesion).Some? ==>
        && comentarios == old(comentarios) + [Comentario(old(nextComentarioId), texto, now, old(sesion).value, id)]
        && nextComentarioId == old(nextComentarioId) + 1
        && r.Ok? && r.value.id == old(nextComentarioId) && r.value.texto == texto && r.value.fecha == now
        && (exists u :: u in usuarios && u.id == old(sesion).value && r.value.usuario == u.nombre)
        && usuarios == old(usuarios) && mensajes == old(mensajes) && likes == old(likes)
        && republicaciones == old(republicaciones) && sesion == old(sesion)
        && nextUsuarioId == old(nextUsuarioId) && nextMensajeId == old(nextMensajeId)
        && nextLikeId == old(nextLikeId) && nextRepublicacionId == old(nextRepublicacionId)
    {
      if sesion.None? {
        return Err(Unauthorized);
      }
      var c := Comentario(nextComentarioId, texto, now, sesion.value, id);
      FreshKeysAppend(comentarios, ComentarioKey, nextComentarioId, c);
      comentarios := comentarios + [c];
      nextComentarioId := nextComentarioId + 1;
      var autor := UsuarioPorId(usuarios, sesion.value);
      r := Ok(ComentarioVista(c.id, c.texto, c.fecha, autor.nombre));
    }

    /** POST /api/mensajes/<id>/republicar: the same toggle as a like, on the reposts. */
    method Republicar(id: nat, now: Timestamp) returns (r: Result<Totales>)
      requires Valid()
      modifies this
      ensures Valid()
      ensures r.Err? ==> unchanged(this)
      ensures old(sesion).None? ==> r == Err(Unauthorized)
      ensures old(sesion).Some? && !MensajeExiste(old(mensajes), id) ==> r == Err(NotFound)
      ensures old(sesion).Some? && MensajeExiste(old(mensajes), id) ==>
        && republicaciones == Toggle(old(republicaciones), old(sesion).value, id, old(nextRepublicacionId), now)
        && nextRepublicacionId == (if HasPair(old(republicaciones), old(sesion).value, id) then old(nextRepublicacionId) else old(nextRepublicacionId) + 1)
        && r == Ok(Totales(|ReaccionesDe(republicaciones, id)|, !HasPair(old(republicaciones), old(sesion).value, id)))
        && (HasPair(republicaciones, old(sesion).value, id) <==> !HasPair(old(republicaciones), old(sesion).value, id))
        && usuarios == old(usuarios) && mensajes == old(mensajes) && likes == old(likes)
        && comentarios == old(comentarios) && sesion == old(sesion)
        && nextUsuarioId == old(nextUsuarioId) && nextMensajeId == old(nextMensajeId)
        && nextLikeId == old(nextLikeId) && nextComentarioId == old(nextComentarioId)
    {
      if sesion.None? {
        return Err(Unauthorized);
      }
      if BuscarMensaje(mensajes, id).None? {
        return Err(NotFound);
      }
      var actual := sesion.value;
      ConsistenteToggle(usuarios, mensajes, comentarios, likes, nextLikeId, republicaciones, nextRepublicacionId,
                        nextUsuarioId, nextMensajeId, nextComentarioId, actual, id, now);
      var creada;
      republicaciones, nextRepublicacionId, creada := AlternarReaccion(republicaciones, actual, id, nextRepublicacionId, now);
      r := Ok(Totales(|ReaccionesDe(republicaciones, id)|, creada));
    }
  }
}
