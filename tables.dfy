/** The records of the main route set and the pure logic its handlers apply to them:
    password hashing and checking, registration field validation, the login match,
    the like/repost toggle, deleting a message by id and the feed item of a message. */
module Tables {
  import opened Seqs
  import opened Api

  datatype Date = Date(year: int, month: int, day: int)

  /** A salted one-way hash, as the hashing library stores it: the salt and the digest. */
  datatype PasswordHash = PasswordHash(salt: string, digest: string)

  /** The one-way digest of a password under a salt. The hashing library is not part
      of this model, so the digest is a parameter of the backend. */
  type Digest = (string, string) -> string

  datatype Usuario = Usuario(
    id: nat, nombre: string, apellido: string, email: string,
    fechaNacimiento: Date, contrasena: PasswordHash)

  /** What the handlers return about a user: every column except the password hash. */
  datatype Perfil = Perfil(id: nat, nombre: string, apellido: string, email: string, fechaNacimiento: Date)

  datatype Mensaje = Mensaje(id: nat, texto: string, fecha: Timestamp, usuarioId: nat)

  /** A row of the Like table or of the Republicacion table: both have this shape. */
  datatype Reaccion = Reaccion(id: nat, usuarioId: nat, mensajeId: nat, fecha: Timestamp)
  type Like = Reaccion
  type Republicacion = Reaccion

  datatype Comentario = Comentario(id: nat, texto: string, fecha: Timestamp, usuarioId: nat, mensajeId: nat)

  /** `{'total': ..., 'dio_like': ...}` or `{'total': ..., 'republico': ...}`. */
  datatype Totales = Totales(total: nat, mio: bool)

  /** A comment as the feed shows it: `usuario` is the commenter's first name. */
  datatype ComentarioVista = ComentarioVista(id: nat, texto: string, fecha: Timestamp, usuario: string)

  /** A feed item. */
  datatype Publicacion = Publicacion(
    id: nat, texto: string, fecha: Timestamp, authorName: string, username: string,
    likes: Totales, comentarios: seq<ComentarioVista>, republicaciones: Totales)

  /** The reply to a new message: `usuario` is the author's first name. */
  datatype MensajeCreado = MensajeCreado(
    id: nat, texto: string, fecha: Timestamp, usuario: string,
    likes: Totales, comentarios: seq<ComentarioVista>, republicaciones: Totales)

  // Keys handed to the sequence operations.
  function UsuarioKey(u: Usuario): nat { u.id }
  function MensajeKey(m: Mensaje): nat { m.id }
  function ReaccionKey(r: Reaccion): nat { r.id }
  function ComentarioKey(c: Comentario): nat { c.id }
  function MensajeFecha(m: Mensaje): int { m.fecha }
  function PublicacionFecha(p: Publicacion): int { p.fecha }

  // ---------------------------------------------------------------- passwords

  /** `generate_password_hash(pw)` with the salt it drew. */
  function HashPassword(digest: Digest, salt: string, pw: string): (h: PasswordHash)
    ensures h.salt == salt
    ensures CheckPassword(digest, h, pw)
  {
    PasswordHash(salt, digest(salt, pw))
  }

  /** `check_password_hash(h, pw)`: the password hashes to the stored digest under the stored salt. */
  predicate CheckPassword(digest: Digest, h: PasswordHash, pw: string)
  {
    digest(h.salt, pw) == h.digest
  }

  function ToPerfil(u: Usuario): Perfil
  {
    Perfil(u.id, u.nombre, u.apellido, u.email, u.fechaNacimiento)
  }

  // ---------------------------------------------------------------- users

  function FullName(u: Usuario): string
  {
    u.nombre + " " + u.apellido
  }

  predicate UsuarioExiste(us: seq<Usuario>, id: nat)
  {
    exists k :: 0 <= k < |us| && us[k].id == id
  }

  function ConId(id: nat): Usuario -> bool
  {
    (u: Usuario) => u.id == id
  }

  /** `Usuario.query.get(id)` for an id that exists. */
  function UsuarioPorId(us: seq<Usuario>, id: nat): (u: Usuario)
    requires UsuarioExiste(us, id)
    ensures u in us && u.id == id
  {
    var k := FindFirst(us, ConId(id));
    assert k.Some? by {
      var j :| 0 <= j < |us| && us[j].id == id;
      assert ConId(id)(us[j]);
    }
    us[k.value]
  }

  /** `Usuario.query.get(id).nombre`. The query never misses in a consistent store
      (see `App.Backend.Valid`), so the empty name is never produced there. */
  function NombreDe(us: seq<Usuario>, id: nat): (n: string)
    ensures UsuarioExiste(us, id) ==> exists u :: u in us && u.id == id && n == u.nombre
  {
    match FindFirst(us, ConId(id))
    case Some(k) => us[k].nombre
    case None => ""
  }

  ghost predicate EmailsUnique(us: seq<Usuario>)
  {
    forall i, j :: 0 <= i < |us| && 0 <= j < |us| && us[i].email == us[j].email ==> i == j
  }

  predicate EmailRegistrado(us: seq<Usuario>, email: string)
  {
    exists k :: 0 <= k < |us| && us[k].email == email
  }

  // ---------------------------------------------------------------- registration

  /** The registration fields, in the order they are checked. */
  const Required: seq<string> := ["nombre", "apellido", "email", "fecha_nacimiento", "contrasena"]

  /** The field is in the request and is not the empty string. */
  predicate Present(datos: map<string, string>, campo: string)
  {
    campo in datos && datos[campo] != ""
  }

  function Falta(datos: map<string, string>): string -> bool
  {
    (campo: string) => !Present(datos, campo)
  }

  /** The position in `Required` of the first missing or empty field. */
  function FirstMissing(datos: map<string, string>): (r: Option<nat>)
    ensures r.Some? ==> r.value < |Required| && !Present(datos, Required[r.value])
    ensures r.Some? ==> forall j :: 0 <= j < r.value ==> Present(datos, Required[j])
    ensures r.None? <==> forall j :: 0 <= j < |Required| ==> Present(datos, Required[j])
  {
    var r := FindFirst(Required, Falta(datos));
    assert forall j :: 0 <= j < |Required| ==> (Falta(datos)(Required[j]) <==> !Present(datos, Required[j]));
    r
  }
  /** The loop of the registration handler over the required fields: it stops at the
      first one that is missing or empty. */
  method BuscarFaltante(datos: map<string, string>) returns (f: Option<nat>)
    ensures f == FirstMissing(datos)
  {
    var i := 0;
    while i < |Required|
      invariant 0 <= i <= |Required|
      invariant forall j :: 0 <= j < i ==> Present(datos, Required[j])
    {
      var campo := Required[i];
      if !(campo in datos && datos[campo] != "") {
        return Some(i);
      }
      i := i + 1;
    }
    return None;
  }


  // ---------------------------------------------------------------- login

  /** The login query: the identifier is the email or "nombre apellido". */
  predicate Matches(u: Usuario, ident: string)
  {
    u.email == ident || FullName(u) == ident
  }

  function Identifica(ident: string): Usuario -> bool
  {
    (u: Usuario) => Matches(u, ident)
  }

  /** The login decision: the first user in table order that the identifier matches,
      provided the password checks against that user's hash. An unknown identifier and a
      wrong password give the same error. */
  function Authenticate(us: seq<Usuario>, ident: string, pw: string, digest: Digest): (r: Result<Usuario>)
    ensures r.Ok? <==>
      exists k :: 0 <= k < |us| && Matches(us[k], ident) && CheckPassword(digest, us[k].contrasena, pw)
                  && forall j :: 0 <= j < k ==> !Matches(us[j], ident)
    ensures r.Ok? ==> r.value in us && Matches(r.value, ident) && CheckPassword(digest, r.value.contrasena, pw)
    ensures r.Ok? ==> exists k :: 0 <= k < |us| && r.value == us[k] && forall j :: 0 <= j < k ==> !Matches(us[j], ident)
    ensures r.Err? ==> r.error == InvalidCredentials
  {
    var found := FindFirst(us, Identifica(ident));
    assert forall j :: 0 <= j < |us| ==> (Identifica(ident)(us[j]) <==> Matches(us[j], ident));
    match found
    case None => Err(InvalidCredentials)
    case Some(k) =>
      if CheckPassword(digest, us[k].contrasena, pw) then Ok(us[k]) else Err(InvalidCredentials)
  }

  /** A user who has just registered can log in with the email and the password, as
      long as no user registered earlier has "nombre apellido" equal to that email. */
  lemma {:induction false} RegisteredUserCanLogIn(us: seq<Usuario>, u: Usuario, digest: Digest, salt: string, pw: string)
    requires forall v :: v in us ==> v.email != u.email && FullName(v) != u.email
    requires u.contrasena == HashPassword(digest, salt, pw)
    ensures Authenticate(us + [u], u.email, pw, digest) == Ok(u)
  {
    var all := us + [u];
    forall j | 0 <= j < |us| ensures !Matches(all[j], u.email) {
      assert all[j] == us[j] && us[j] in us;
    }
    assert Matches(all[|us|], u.email);
    var r := Authenticate(all, u.email, pw, digest);
    assert r.Ok? by {
      assert 0 <= |us| < |all| && Matches(all[|us|], u.email) && CheckPassword(digest, all[|us|].contrasena, pw);
    }
  }

  // ---------------------------------------------------------------- messages

  function MensajeConId(id: nat): Mensaje -> bool
  {
    (m: Mensaje) => m.id == id
  }

  predicate MensajeExiste(ms: seq<Mensaje>, id: nat)
  {
    exists k :: 0 <= k < |ms| && ms[k].id == id
  }

  /** `get_or_404(id)`: the position of the message with that id. */
  function BuscarMensaje(ms: seq<Mensaje>, id: nat): (r: Option<nat>)
    ensures r.Some? <==> MensajeExiste(ms, id)
    ensures r.Some? ==> r.value < |ms| && ms[r.value].id == id
  {
    var r := FindFirst(ms, MensajeConId(id));
    assert forall j :: 0 <= j < |ms| ==> (MensajeConId(id)(ms[j]) <==> ms[j].id == id);
    r
  }

  /** Some like, comment or repost names the message. Deleting such a message makes the
      ORM set their `mensaje_id` to NULL, which the NOT NULL columns refuse at commit. */
  predicate TieneReferencias(ls: seq<Like>, cs: seq<Comentario>, rs: seq<Republicacion>, id: nat)
  {
    || (exists k :: 0 <= k < |ls| && ls[k].mensajeId == id)
    || (exists k :: 0 <= k < |cs| && cs[k].mensajeId == id)
    || (exists k :: 0 <= k < |rs| && rs[k].mensajeId == id)
  }

  /** A message has references exactly when its feed item would show a like, a comment
      or a repost. */
  lemma TieneReferenciasIff(ls: seq<Like>, cs: seq<Comentario>, rs: seq<Republicacion>, id: nat)
    ensures TieneReferencias(ls, cs, rs, id) <==>
      ReaccionesDe(ls, id) != [] || ComentariosDe(cs, id) != [] || ReaccionesDe(rs, id) != []
  {
    ReaccionesDeIff(ls, id);
    ReaccionesDeIff(rs, id);
    ComentariosDeIff(cs, id);
    var sel := ComentariosDe(cs, id);
    if sel != [] {
      assert sel[0] in sel;
      var k :| 0 <= k < |cs| && cs[k] == sel[0];
    }
    if exists k :: 0 <= k < |cs| && cs[k].mensajeId == id {
      var k :| 0 <= k < |cs| && cs[k].mensajeId == id;
      assert cs[k] in cs;
      assert cs[k] in sel;
    }
  }

  lemma ReaccionesDeIff(t: seq<Reaccion>, id: nat)
    ensures ReaccionesDe(t, id) != [] <==> exists k :: 0 <= k < |t| && t[k].mensajeId == id
  {
    var sel := ReaccionesDe(t, id);
    if sel != [] {
      assert sel[0] in sel;
      var k :| 0 <= k < |t| && t[k] == sel[0];
      assert DelMensaje(id)(t[k]);
    }
    if exists k :: 0 <= k < |t| && t[k].mensajeId == id {
      var k :| 0 <= k < |t| && t[k].mensajeId == id;
      assert t[k] in t && DelMensaje(id)(t[k]);
      assert t[k] in sel;
    }
  }

  /** Deleting the message found by `get_or_404(id)`: with unique ids, exactly the
      messages with another id remain, in their order, and nothing else. */
  lemma DeleteRemovesExactly(ms: seq<Mensaje>, id: nat, next: nat)
    requires FreshKeys(ms, MensajeKey, next)
    requires BuscarMensaje(ms, id).Some?
    ensures var r := RemoveAt(ms, BuscarMensaje(ms, id).value);
      && |r| == |ms| - 1
      && !MensajeExiste(r, id)
      && (forall m :: m in ms && m.id != id ==> m in r)
      && (forall m :: m in r ==> m in ms)
  {
    var k := BuscarMensaje(ms, id).value;
    var r := RemoveAt(ms, k);
    forall j | 0 <= j < |r| ensures r[j].id != id {
      var j' := if j < k then j else j + 1;
      assert r[j] == ms[j'];
      assert MensajeKey(ms[j']) != MensajeKey(ms[k]);
    }
    forall m | m in ms && m.id != id ensures m in r {
      var j :| 0 <= j < |ms| && ms[j] == m;
      if j < k { assert r[j] == m; } else { assert j > k && r[j - 1] == m; }
    }
    forall m | m in r ensures m in ms {
      var j :| 0 <= j < |r| && r[j] == m;
      if j < k { assert ms[j] == m; } else { assert ms[j + 1] == m; }
    }
  }

  // ---------------------------------------------------------------- likes and reposts

  function EsPar(u: nat, m: nat): Reaccion -> bool
  {
    (r: Reaccion) => r.usuarioId == u && r.mensajeId == m
  }

  /** The user has a row for the message (`any(... usuario_id == usuario_actual ...)`). */
  predicate HasPair(t: seq<Reaccion>, u: nat, m: nat)
  {
    exists i :: 0 <= i < |t| && t[i].usuarioId == u && t[i].mensajeId == m
  }

  /** At most one row per (user, message) pair. */
  ghost predicate UniquePairs(t: seq<Reaccion>)
  {
    forall i, j ::
      0 <= i < |t| && 0 <= j < |t| && t[i].usuarioId == t[j].usuarioId && t[i].mensajeId == t[j].mensajeId
      ==> i == j
  }

  function DelMensaje(m: nat): Reaccion -> bool
  {
    (r: Reaccion) => r.mensajeId == m
  }

  /** `filter_by(mensaje_id=m).all()` over a Like or Republicacion table. */
  function ReaccionesDe(t: seq<Reaccion>, m: nat): seq<Reaccion>
  {
    Filter(t, DelMensaje(m))
  }

  /** The toggle: delete the first (u, m) row if there is one, else add one. */
  function Toggle(t: seq<Reaccion>, u: nat, m: nat, id: nat, now: Timestamp): seq<Reaccion>
  {
    match FindFirst(t, EsPar(u, m))
    case Some(k) => RemoveAt(t, k)
    case None => t + [Reaccion(id, u, m, now)]
  }

  lemma ToggleCases(t: seq<Reaccion>, u: nat, m: nat, id: nat, now: Timestamp)
    ensures !HasPair(t, u, m) ==> Toggle(t, u, m, id, now) == t + [Reaccion(id, u, m, now)]
    ensures HasPair(t, u, m) ==> exists k :: 0 <= k < |t| && t[k].usuarioId == u && t[k].mensajeId == m
                                            && Toggle(t, u, m, id, now) == RemoveAt(t, k)
  {
    var f := FindFirst(t, EsPar(u, m));
    assert forall j :: 0 <= j < |t| ==> (EsPar(u, m)(t[j]) <==> t[j].usuarioId == u && t[j].mensajeId == m);
    if f.Some? {
      assert EsPar(u, m)(t[f.value]);
    }
  }

  lemma RemovePair(t: seq<Reaccion>, k: nat)
    requires UniquePairs(t) && k < |t|
    ensures var t' := RemoveAt(t, k);
      forall u', m' :: HasPair(t', u', m') <==>
        HasPair(t, u', m') && (u' != t[k].usuarioId || m' != t[k].mensajeId)
  {
    var t' := RemoveAt(t, k);
    forall u', m' ensures HasPair(t', u', m') <==>
      HasPair(t, u', m') && (u' != t[k].usuarioId || m' != t[k].mensajeId)
    {
      if HasPair(t', u', m') {
        var j :| 0 <= j < |t'| && t'[j].usuarioId == u' && t'[j].mensajeId == m';
        var j' := if j < k then j else j + 1;
        assert t'[j] == t[j'];
      }
      if HasPair(t, u', m') && (u' != t[k].usuarioId || m' != t[k].mensajeId) {
        var j :| 0 <= j < |t| && t[j].usuarioId == u' && t[j].mensajeId == m';
        if j < k { assert t'[j] == t[j]; } else { assert t'[j - 1] == t[j]; }
      }
    }
  }

  lemma RemoveKeepsUnique(t: seq<Reaccion>, k: nat)
    requires UniquePairs(t) && k < |t|
    ensures UniquePairs(RemoveAt(t, k))
  {
    var t' := RemoveAt(t, k);
    forall i, j | 0 <= i < |t'| && 0 <= j < |t'| && t'[i].usuarioId == t'[j].usuarioId
                  && t'[i].mensajeId == t'[j].mensajeId
      ensures i == j
    {
      var i' := if i < k then i else i + 1;
      var j' := if j < k then j else j + 1;
      assert t'[i] == t[i'] && t'[j] == t[j'];
    }
  }

  lemma AppendPair(t: seq<Reaccion>, x: Reaccion)
    requires UniquePairs(t) && !HasPair(t, x.usuarioId, x.mensajeId)
    ensures UniquePairs(t + [x])
    ensures forall u', m' :: HasPair(t + [x], u', m') <==>
      HasPair(t, u', m') || (u' == x.usuarioId && m' == x.mensajeId)
  {
    var t' := t + [x];
    assert t'[|t|] == x;
    forall u', m' ensures HasPair(t', u', m') <==> HasPair(t, u', m') || (u' == x.usuarioId && m' == x.mensajeId) {
      if HasPair(t', u', m') {
        var j :| 0 <= j < |t'| && t'[j].usuarioId == u' && t'[j].mensajeId == m';
        if j < |t| { assert t'[j] == t[j]; }
      }
      if HasPair(t, u', m') {
        var j :| 0 <= j < |t| && t[j].usuarioId == u' && t[j].mensajeId == m';
        assert t'[j] == t[j];
      }
    }
  }

  /** Toggling flips the presence of the (u, m) row, leaves every other pair as it
      was, and keeps at most one row per pair. */
  lemma ToggleFlips(t: seq<Reaccion>, u: nat, m: nat, id: nat, now: Timestamp)
    requires UniquePairs(t)
    ensures var t' := Toggle(t, u, m, id, now);
      && (HasPair(t', u, m) <==> !HasPair(t, u, m))
      && UniquePairs(t')
      && forall u', m' :: (u' != u || m' != m) ==> (HasPair(t', u', m') <==> HasPair(t, u', m'))
  {
    ToggleCases(t, u, m, id, now);
    if HasPair(t, u, m) {
      var k :| 0 <= k < |t| && t[k].usuarioId == u && t[k].mensajeId == m && Toggle(t, u, m, id, now) == RemoveAt(t, k);
      RemovePair(t, k);
      RemoveKeepsUnique(t, k);
    } else {
      AppendPair(t, Reaccion(id, u, m, now));
    }
  }

  /** A Like or Republicacion table as the store keeps it: fresh ids, one row per pair,
      rows naming existing users and message ids already handed out. */
  ghost predicate TablaReacciones(t: seq<Reaccion>, next: nat, us: seq<Usuario>, nextMensaje: nat)
  {
    && FreshKeys(t, ReaccionKey, next)
    && UniquePairs(t)
    && (forall r :: r in t ==> UsuarioExiste(us, r.usuarioId) && r.mensajeId < nextMensaje)
  }

  /** The toggle keeps the table well formed, taking a fresh id only when it adds a row,
      and flips the presence of the pair. */
  lemma ToggleKeepsTabla(t: seq<Reaccion>, u: nat, m: nat, next: nat, now: Timestamp, us: seq<Usuario>, nextMensaje: nat)
    requires TablaReacciones(t, next, us, nextMensaje)
    requires UsuarioExiste(us, u) && m < nextMensaje
    ensures TablaReacciones(Toggle(t, u, m, next, now), if HasPair(t, u, m) then next else next + 1, us, nextMensaje)
    ensures HasPair(Toggle(t, u, m, next, now), u, m) <==> !HasPair(t, u, m)
  {
    ToggleFlips(t, u, m, next, now);
    ToggleCases(t, u, m, next, now);
    if HasPair(t, u, m) {
      var k :| 0 <= k < |t| && t[k].usuarioId == u && t[k].mensajeId == m && Toggle(t, u, m, next, now) == RemoveAt(t, k);
      RemoveKeepsTabla(t, k, next, us, nextMensaje);
    } else {
      AppendKeepsTabla(t, Reaccion(next, u, m, now), us, nextMensaje);
    }
  }

  lemma RemoveKeepsTabla(t: seq<Reaccion>, k: nat, next: nat, us: seq<Usuario>, nextMensaje: nat)
    requires TablaReacciones(t, next, us, nextMensaje) && k < |t|
    ensures TablaReacciones(RemoveAt(t, k), next, us, nextMensaje)
  {
    FreshKeysRemove(t, ReaccionKey, next, k);
    RemoveKeepsUnique(t, k);
    var t' := RemoveAt(t, k);
    forall r | r in t' ensures r in t {
      assert r in multiset(t');
    }
  }

  lemma AppendKeepsTabla(t: seq<Reaccion>, x: Reaccion, us: seq<Usuario>, nextMensaje: nat)
    requires TablaReacciones(t, x.id, us, nextMensaje)
    requires UsuarioExiste(us, x.usuarioId) && x.mensajeId < nextMensaje
    requires !HasPair(t, x.usuarioId, x.mensajeId)
    ensures TablaReacciones(t + [x], x.id + 1, us, nextMensaje)
  {
    FreshKeysAppend(t, ReaccionKey, x.id, x);
    AppendPair(t, x);
    assert forall r :: r in t + [x] ==> r in t || r == x;
  }

  /** The branch both reaction handlers run, written step by step as the handlers do
      it; its result is `Toggle`, the value-level form of the same step. The user's row
      for the message is deleted when there is one, otherwise a row is appended with
      the next id. `creada` says whether a row was added, and the counter moves only
      then. */
  method AlternarReaccion(t: seq<Reaccion>, u: nat, m: nat, next: nat, now: Timestamp)
    returns (t': seq<Reaccion>, next': nat, creada: bool)
    ensures t' == Toggle(t, u, m, next, now)
    ensures creada <==> !HasPair(t, u, m)
    ensures next' == if creada then next + 1 else next
  {
    var existente := FindFirst(t, EsPar(u, m));
    assert existente.Some? ==> EsPar(u, m)(t[existente.value]);
    assert existente.None? ==> forall j :: 0 <= j < |t| ==> !EsPar(u, m)(t[j]);
    if existente.Some? {
      t' := RemoveAt(t, existente.value);
      next' := next;
    } else {
      t' := t + [Reaccion(next, u, m, now)];
      next' := next + 1;
    }
    creada := existente.None?;
  }

  lemma RemoveCount(t: seq<Reaccion>, k: nat, m2: nat)
    requires k < |t|
    ensures |ReaccionesDe(RemoveAt(t, k), m2)| == |ReaccionesDe(t, m2)| - (if t[k].mensajeId == m2 then 1 else 0)
  {
    assert t == t[..k] + ([t[k]] + t[k + 1..]);
    FilterAppend(t[..k], [t[k]] + t[k + 1..], DelMensaje(m2));
    FilterAppend([t[k]], t[k + 1..], DelMensaje(m2));
    FilterAppend(t[..k], t[k + 1..], DelMensaje(m2));
    assert [t[k]][1..] == [];
  }

  lemma AppendCount(t: seq<Reaccion>, x: Reaccion, m2: nat)
    ensures |ReaccionesDe(t + [x], m2)| == |ReaccionesDe(t, m2)| + (if x.mensajeId == m2 then 1 else 0)
  {
    FilterAppend(t, [x], DelMensaje(m2));
    assert [x][1..] == [];
  }

  /** After the toggle the message has one row fewer if the user had one, one more if
      not; every other message keeps its count. */
  lemma ToggleTotal(t: seq<Reaccion>, u: nat, m: nat, id: nat, now: Timestamp, m2: nat)
    ensures |ReaccionesDe(Toggle(t, u, m, id, now), m2)| ==
      |ReaccionesDe(t, m2)| + (if m2 != m then 0 else if HasPair(t, u, m) then -1 else 1)
  {
    ToggleCases(t, u, m, id, now);
    if HasPair(t, u, m) {
      var k :| 0 <= k < |t| && t[k].usuarioId == u && t[k].mensajeId == m && Toggle(t, u, m, id, now) == RemoveAt(t, k);
      RemoveCount(t, k, m2);
    } else {
      AppendCount(t, Reaccion(id, u, m, now), m2);
    }
  }

  /** Two consecutive toggles by the same user on the same message restore every
      pair and every count; when the first toggle added the row, the table itself. */
  lemma ToggleTwice(t: seq<Reaccion>, u: nat, m: nat, id1: nat, now1: Timestamp, id2: nat, now2: Timestamp)
    requires UniquePairs(t)
    ensures var t2 := Toggle(Toggle(t, u, m, id1, now1), u, m, id2, now2);
      && (forall u', m' :: HasPair(t2, u', m') <==> HasPair(t, u', m'))
      && (forall m2 :: |ReaccionesDe(t2, m2)| == |ReaccionesDe(t, m2)|)
      && (!HasPair(t, u, m) ==> t2 == t)
      && UniquePairs(t2)
  {
    var t1 := Toggle(t, u, m, id1, now1);
    var t2 := Toggle(t1, u, m, id2, now2);
    ToggleFlips(t, u, m, id1, now1);
    ToggleFlips(t1, u, m, id2, now2);
    forall m2 ensures |ReaccionesDe(t2, m2)| == |ReaccionesDe(t, m2)| {
      ToggleTotal(t, u, m, id1, now1, m2);
      ToggleTotal(t1, u, m, id2, now2, m2);
    }
    if !HasPair(t, u, m) {
      ToggleCases(t, u, m, id1, now1);
      ToggleCases(t1, u, m, id2, now2);
      var k :| 0 <= k < |t1| && t1[k].usuarioId == u && t1[k].mensajeId == m && t2 == RemoveAt(t1, k);
      assert t1[|t|].usuarioId == u && t1[|t|].mensajeId == m;
      assert k == |t|;
      assert t2 == t;
    }
  }

  // ---------------------------------------------------------------- comments and the feed

  function ComentarioDe(m: nat): Comentario -> bool
  {
    (c: Comentario) => c.mensajeId == m
  }

  /** `Comentario.query.filter_by(mensaje_id=m).all()`. */
  function ComentariosDe(cs: seq<Comentario>, m: nat): seq<Comentario>
  {
    Filter(cs, ComentarioDe(m))
  }

  /** The comment list of a feed item: each comment with its author's first name. */
  function VistasComentarios(us: seq<Usuario>, cs: seq<Comentario>): (vs: seq<ComentarioVista>)
    ensures |vs| == |cs|
    ensures forall k :: 0 <= k < |cs| ==>
      vs[k] == ComentarioVista(cs[k].id, cs[k].texto, cs[k].fecha, NombreDe(us, cs[k].usuarioId))
    decreases |cs|
  {
    if cs == [] then []
    else
      [ComentarioVista(cs[0].id, cs[0].texto, cs[0].fecha, NombreDe(us, cs[0].usuarioId))]
      + VistasComentarios(us, cs[1..])
  }

  /** `any(r.usuario_id == actual for r in rows)`. */
  predicate AlgunoDe(rows: seq<Reaccion>, actual: nat)
  {
    exists r :: r in rows && r.usuarioId == actual
  }

  /** The flag computed over the message's rows is "the user has a row for it". */
  lemma AlgunoDeIff(t: seq<Reaccion>, actual: nat, m: nat)
    ensures AlgunoDe(ReaccionesDe(t, m), actual) <==> HasPair(t, actual, m)
  {
    var rows := ReaccionesDe(t, m);
    if HasPair(t, actual, m) {
      var i :| 0 <= i < |t| && t[i].usuarioId == actual && t[i].mensajeId == m;
      assert DelMensaje(m)(t[i]);
      assert t[i] in rows;
    }
    if AlgunoDe(rows, actual) {
      var r :| r in rows && r.usuarioId == actual;
      var i :| 0 <= i < |rows| && rows[i] == r;
      assert DelMensaje(m)(rows[i]);
      assert r in t;
    }
  }

  lemma ComentariosDeIff(cs: seq<Comentario>, m: nat)
    ensures forall c :: c in ComentariosDe(cs, m) <==> c in cs && c.mensajeId == m
  {
    var sel := ComentariosDe(cs, m);
    forall c ensures c in sel <==> c in cs && c.mensajeId == m {
      if c in sel {
        var i :| 0 <= i < |sel| && sel[i] == c;
        assert ComentarioDe(m)(sel[i]);
      }
      if c in cs && c.mensajeId == m {
        var i :| 0 <= i < |cs| && cs[i] == c;
        assert ComentarioDe(m)(cs[i]);
      }
    }
  }

  /** The `likes` or `republicaciones` object of a feed item. */
  function TotalesDe(t: seq<Reaccion>, m: nat, actual: nat): Totales
  {
    var rows := ReaccionesDe(t, m);
    Totales(|rows|, AlgunoDe(rows, actual))
  }

  /** The object counts the message's rows and flags whether the user has one of them. */
  lemma TotalesDeSpec(t: seq<Reaccion>, m: nat, actual: nat)
    ensures TotalesDe(t, m, actual).total == |ReaccionesDe(t, m)|
    ensures TotalesDe(t, m, actual).mio <==> HasPair(t, actual, m)
  {
    AlgunoDeIff(t, actual, m);
  }

  /** The `comentarios` list of a feed item. */
  function ComentariosVista(us: seq<Usuario>, cs: seq<Comentario>, m: nat): seq<ComentarioVista>
  {
    VistasComentarios(us, ComentariosDe(cs, m))
  }

  /** One entry per comment on the message: each entry is such a comment, and each
      such comment has an entry. */
  lemma ComentariosVistaSpec(us: seq<Usuario>, cs: seq<Comentario>, m: nat)
    ensures var vs := ComentariosVista(us, cs, m);
      && |vs| == |ComentariosDe(cs, m)|
      && (forall k :: 0 <= k < |vs| ==>
            exists c :: c in cs && c.mensajeId == m && vs[k].id == c.id && vs[k].texto == c.texto)
      && (forall c :: c in cs && c.mensajeId == m ==> exists k :: 0 <= k < |vs| && vs[k].id == c.id)
  {
    var vs := ComentariosVista(us, cs, m);
    ComentariosVistaSound(us, cs, m, vs);
    ComentariosVistaComplete(us, cs, m, vs);
  }

  lemma ComentariosVistaSound(us: seq<Usuario>, cs: seq<Comentario>, m: nat, vs: seq<ComentarioVista>)
    requires vs == VistasComentarios(us, ComentariosDe(cs, m))
    ensures forall k :: 0 <= k < |vs| ==>
        exists c :: c in cs && c.mensajeId == m && vs[k].id == c.id && vs[k].texto == c.texto
  {
    var sel := ComentariosDe(cs, m);
    ComentariosDeIff(cs, m);
    forall k | 0 <= k < |vs|
      ensures exists c :: c in cs && c.mensajeId == m && vs[k].id == c.id && vs[k].texto == c.texto
    {
      var c := sel[k];
      assert c in sel;
      assert vs[k].id == c.id && vs[k].texto == c.texto;
    }
  }

  lemma ComentariosVistaComplete(us: seq<Usuario>, cs: seq<Comentario>, m: nat, vs: seq<ComentarioVista>)
    requires vs == VistasComentarios(us, ComentariosDe(cs, m))
    ensures forall c :: c in cs && c.mensajeId == m ==> exists k :: 0 <= k < |vs| && vs[k].id == c.id
  {
    var sel := ComentariosDe(cs, m);
    ComentariosDeIff(cs, m);
    forall c | c in cs && c.mensajeId == m ensures exists k :: 0 <= k < |vs| && vs[k].id == c.id {
      assert c in sel;
      var k :| 0 <= k < |sel| && sel[k] == c;
      assert 0 <= k < |vs| && vs[k].id == c.id;
    }
  }

  /** The feed item of message `m` for the user `actual`. The author lookup never
      misses in a consistent store; a missing author would leave the two author fields
      empty. */
  function VistaDe(us: seq<Usuario>, ls: seq<Like>, cs: seq<Comentario>, rs: seq<Republicacion>, m: Mensaje, actual: nat): (p: Publicacion)
    ensures p.id == m.id && p.texto == m.texto && p.fecha == m.fecha
    ensures UsuarioExiste(us, m.usuarioId) ==>
      exists autor :: autor in us && autor.id == m.usuarioId
                      && p.authorName == FullName(autor) && p.username == autor.email
  {
    var k := FindFirst(us, ConId(m.usuarioId));
    assert k.Some? ==> ConId(m.usuarioId)(us[k.value]);
    assert UsuarioExiste(us, m.usuarioId) ==> k.Some? by {
      if UsuarioExiste(us, m.usuarioId) {
        var j :| 0 <= j < |us| && us[j].id == m.usuarioId;
        assert ConId(m.usuarioId)(us[j]);
      }
    }
    Publicacion(
      m.id, m.texto, m.fecha,
      if k.Some? then FullName(us[k.value]) else "",
      if k.Some? then us[k.value].email else "",
      TotalesDe(ls, m.id, actual), ComentariosVista(us, cs, m.id), TotalesDe(rs, m.id, actual))
  }

  /** A feed item counts the message's likes and reposts and flags whether the user
      has one of each. */
  lemma VistaDeTotales(us: seq<Usuario>, ls: seq<Like>, cs: seq<Comentario>, rs: seq<Republicacion>, m: Mensaje, actual: nat)
    ensures var p := VistaDe(us, ls, cs, rs, m, actual);
      && p.likes.total == |ReaccionesDe(ls, m.id)| && (p.likes.mio <==> HasPair(ls, actual, m.id))
      && p.republicaciones.total == |ReaccionesDe(rs, m.id)| && (p.republicaciones.mio <==> HasPair(rs, actual, m.id))
  {
    TotalesDeSpec(ls, m.id, actual);
    TotalesDeSpec(rs, m.id, actual);
  }
}
