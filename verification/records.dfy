/**
 * The stored shapes: the generic Post row, the four category records that
 * point at it through `post_id`, and the store holding both.
 */
module Records {
  import opened Wrappers
  import opened Rules
  import opened Validation
  import Upload

  /** A column value: a string, or null when the body did not carry the field. */
  type Text = Option<string>

  /** The category-specific columns of a record, one variant per category table. */
  datatype Payload =
    | AtleticaData(nome: Text, descricao: Text, email_contato: Text, foto: Text, video: Text)
    | AvisoData(nome: Text, descricao: Text)
    | ComodidadesData(nome: Text, descricao: Text, endereco: Text, cidade: Text, cep: Text, uf: Text,
                      complemento: Text, contato: Text, foto: Text, video: Text)
    | EventosData(nome: Text, descricao: Text, data_inicio: Text, data_fim: Text, endereco: Text,
                  cidade: Text, cep: Text, uf: Text, complemento: Text, email_contato: Text,
                  foto: Text, video: Text)

  /** A row of one of the category tables. */
  datatype Record = Record(id: nat, post_id: nat, data: Payload)

  /** A row of the generic Post table. */
  datatype PostRow = PostRow(id: nat, user_id: Text, name: Text, status: Text, post_type: string)

  /** Both kinds of table, in insertion order, with the next identifiers to hand out. */
  datatype Store = Store(posts: seq<PostRow>, records: seq<Record>, nextPostId: nat, nextRecordId: nat)

  const EmptyStore: Store := Store([], [], 1, 1)

  /** The category whose table a payload belongs to. */
  function KindOf(p: Payload): Category
  {
    match p
    case AtleticaData(_, _, _, _, _) => Atletica
    case AvisoData(_, _) => Aviso
    case ComodidadesData(_, _, _, _, _, _, _, _, _, _) => Comodidades
    case EventosData(_, _, _, _, _, _, _, _, _, _, _, _) => Eventos
  }

  /** Whether a category's table has `foto` and `video` columns. */
  predicate HasMedia(c: Category)
  {
    c != Aviso
  }

  /** The text columns each category copies from the request body. */
  function Columns(c: Category): seq<string>
  {
    match c
    case Atletica => ["nome", "descricao", "email_contato"]
    case Aviso => ["nome", "descricao"]
    case Comodidades => ["nome", "descricao", "endereco", "cidade", "cep", "uf", "complemento", "contato"]
    case Eventos => ["nome", "descricao", "data_inicio", "data_fim", "endereco", "cidade", "cep", "uf",
                     "complemento", "email_contato"]
  }

  /** The media columns are never among the text columns. */
  lemma MediaNotText(c: Category)
    ensures "foto" !in Columns(c) && "video" !in Columns(c)
  {
    match c
    case Atletica =>
    case Aviso =>
    case Comodidades =>
    case Eventos =>
  }

  /** Whether `key` is a column of category `c`'s table (media included). */
  predicate IsColumn(c: Category, key: string)
  {
    key in Columns(c) || (HasMedia(c) && (key == "foto" || key == "video"))
  }

  /** The value of column `key` of a payload, or None when its table has no such column. */
  function FieldOf(p: Payload, key: string): Option<Text>
  {
    match p
    case AtleticaData(nome, descricao, email_contato, foto, video) =>
      if key == "nome" then Some(nome)
      else if key == "descricao" then Some(descricao)
      else if key == "email_contato" then Some(email_contato)
      else if key == "foto" then Some(foto)
      else if key == "video" then Some(video)
      else None
    case AvisoData(nome, descricao) =>
      if key == "nome" then Some(nome)
      else if key == "descricao" then Some(descricao)
      else None
    case ComodidadesData(nome, descricao, endereco, cidade, cep, uf, complemento, contato, foto, video) =>
      if key == "nome" then Some(nome)
      else if key == "descricao" then Some(descricao)
      else if key == "endereco" then Some(endereco)
      else if key == "cidade" then Some(cidade)
      else if key == "cep" then Some(cep)
      else if key == "uf" then Some(uf)
      else if key == "complemento" then Some(complemento)
      else if key == "contato" then Some(contato)
      else if key == "foto" then Some(foto)
      else if key == "video" then Some(video)
      else None
    case EventosData(nome, descricao, data_inicio, data_fim, endereco, cidade, cep, uf, complemento,
                     email_contato, foto, video) =>
      if key == "nome" then Some(nome)
      else if key == "descricao" then Some(descricao)
      else if key == "data_inicio" then Some(data_inicio)
      else if key == "data_fim" then Some(data_fim)
      else if key == "endereco" then Some(endereco)
      else if key == "cidade" then Some(cidade)
      else if key == "cep" then Some(cep)
      else if key == "uf" then Some(uf)
      else if key == "complemento" then Some(complemento)
      else if key == "email_contato" then Some(email_contato)
      else if key == "foto" then Some(foto)
      else if key == "video" then Some(video)
      else None
  }

  /** The columns a payload has are exactly its table's columns. */
  lemma FieldOfColumns(p: Payload, key: string)
    ensures FieldOf(p, key).Some? <==> IsColumn(KindOf(p), key)
  {
  }

  /** A media-carrying payload with its `foto` and `video` columns replaced. */
  function WithMedia(p: Payload, foto: Text, video: Text): (q: Payload)
    requires !p.AvisoData?
    ensures !q.AvisoData? && q.foto == foto && q.video == video
  {
    p.(foto := foto, video := video)
  }

  /** Replacing the media columns changes no other column. */
  lemma WithMediaColumns(p: Payload, foto: Text, video: Text)
    requires !p.AvisoData?
    ensures KindOf(WithMedia(p, foto, video)) == KindOf(p)
    ensures forall key | key != "foto" && key != "video" :: FieldOf(WithMedia(p, foto, video), key) == FieldOf(p, key)
    ensures FieldOf(WithMedia(p, foto, video), "foto") == Some(foto)
    ensures FieldOf(WithMedia(p, foto, video), "video") == Some(video)
    ensures FieldOf(p, "foto") == Some(p.foto) && FieldOf(p, "video") == Some(p.video)
  {
    var q := WithMedia(p, foto, video);
    forall key | key != "foto" && key != "video"
      ensures FieldOf(q, key) == FieldOf(p, key)
    {
    }
  }

  /**
   * The category record's columns for a validated body: each text column
   * of the category copied from the body, and, for the tables that have
   * them, the stored path of the uploaded `foto`/`video` or null.
   */
  function BuildPayload(c: Category, body: Body, media: Upload.Media): (p: Payload)
    ensures KindOf(p) == c
    ensures forall k | 0 <= k < |Columns(c)| :: FieldOf(p, Columns(c)[k]) == Some(Get(body, Columns(c)[k]))
    ensures HasMedia(c) ==> FieldOf(p, "foto") == Some(media.foto) && FieldOf(p, "video") == Some(media.video)
    ensures !HasMedia(c) ==> FieldOf(p, "foto") == None && FieldOf(p, "video") == None
  {
    match c
    case Atletica =>
      AtleticaData(Get(body, "nome"), Get(body, "descricao"), Get(body, "email_contato"), media.foto, media.video)
    case Aviso =>
      AvisoData(Get(body, "nome"), Get(body, "descricao"))
    case Comodidades =>
      ComodidadesData(Get(body, "nome"), Get(body, "descricao"), Get(body, "endereco"), Get(body, "cidade"),
                      Get(body, "cep"), Get(body, "uf"), Get(body, "complemento"), Get(body, "contato"),
                      media.foto, media.video)
    case Eventos =>
      EventosData(Get(body, "nome"), Get(body, "descricao"), Get(body, "data_inicio"), Get(body, "data_fim"),
                  Get(body, "endereco"), Get(body, "cidade"), Get(body, "cep"), Get(body, "uf"),
                  Get(body, "complemento"), Get(body, "email_contato"), media.foto, media.video)
  }

  /** Whether some Post of `s` has identifier `id`. */
  predicate HasPost(s: Store, id: nat)
  {
    exists j | 0 <= j < |s.posts| :: s.posts[j].id == id
  }

  /**
   * What every store built by the controller satisfies: Post identifiers
   * increase and lie below the next one, every Post names a known category,
   * and every category record points at an existing Post of its own category.
   */
  predicate Valid(s: Store)
  {
    && (forall i | 0 <= i < |s.posts| :: s.posts[i].id < s.nextPostId)
    && (forall i, j | 0 <= i < j < |s.posts| :: s.posts[i].id < s.posts[j].id)
    && (forall i | 0 <= i < |s.posts| :: ParseCategory(s.posts[i].post_type).Some?)
    && (forall i | 0 <= i < |s.records| :: s.records[i].id < s.nextRecordId)
    && (forall i | 0 <= i < |s.records| ::
          exists j | 0 <= j < |s.posts| ::
            s.posts[j].id == s.records[i].post_id && s.posts[j].post_type == CategoryName(KindOf(s.records[i].data)))
  }

  lemma EmptyStoreValid()
    ensures Valid(EmptyStore)
  {
  }
}
