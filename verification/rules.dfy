/** The four post categories and the table of fields each one requires. */
module Rules {
  import opened Wrappers

  datatype Category = Atletica | Aviso | Comodidades | Eventos

  /** The `post_type` text that selects a category. */
  function CategoryName(c: Category): string
  {
    match c
    case Atletica => "Atletica"
    case Aviso => "Aviso"
    case Comodidades => "Comodidades"
    case Eventos => "Eventos"
  }

  /** Required fields per `post_type`, in the order they are checked. */
  const RequiredFields: map<string, seq<string>> := map[
    "Atletica" := ["nome", "descricao", "email_contato"],
    "Aviso" := ["nome", "descricao"],
    "Comodidades" := ["nome", "descricao", "endereco", "cidade", "cep", "complemento", "contato"],
    "Eventos" := ["nome", "descricao", "data_inicio", "data_fim", "endereco", "cidade", "cep", "uf", "complemento", "email_contato"]
  ]

  /** The category a `post_type` text names, if any. */
  function ParseCategory(postType: string): (r: Option<Category>)
    ensures r.Some? ==> CategoryName(r.value) == postType
  {
    if postType == "Atletica" then Some(Atletica)
    else if postType == "Aviso" then Some(Aviso)
    else if postType == "Comodidades" then Some(Comodidades)
    else if postType == "Eventos" then Some(Eventos)
    else None
  }

  /** The required fields of a category. */
  function Required(c: Category): (r: seq<string>)
    ensures |r| >= 2 && r[0] == "nome" && r[1] == "descricao"
  {
    RequiredFields[CategoryName(c)]
  }

  /** Category names and their texts are in one-to-one correspondence. */
  lemma CategoryNameRoundTrip(c: Category)
    ensures ParseCategory(CategoryName(c)) == Some(c)
  {
  }

  /** The table knows exactly the four category names, so a lookup succeeds iff the text names a category. */
  lemma TableKeysAreCategories(postType: string)
    ensures postType in RequiredFields <==> ParseCategory(postType).Some?
  {
  }
}
