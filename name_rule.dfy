/** The form schema for the department name:
    `Yup.string().trim().min(5).max(30).required()`. */
module NameRule {
  import opened Optional
  import opened JsText

  const MinLength: nat := 5
  const MaxLength: nat := 30

  /** The schema accepts `nome` when it is present and its trimmed length
      lies in [MinLength, MaxLength]. An absent value fails `required`;
      an empty or blank one fails `min` after the trim. */
  predicate ValidName(nome: Option<string>)
  {
    nome.Some? && MinLength <= |Trim(nome.value)| <= MaxLength
  }

  /** What acceptance tells a caller about the raw text: it is present,
      has a non-blank core, and is at least MinLength characters long. */
  lemma AcceptedNameShape(nome: Option<string>)
    requires ValidName(nome)
    ensures nome.Some? && |nome.value| >= MinLength
    ensures Trim(nome.value) != [] && NoEdgeWhitespace(Trim(nome.value))
  {
    TrimShape(nome.value);
  }

  /** A value made only of whitespace is refused, however long it is
      (the "empty or only spaces" message of the schema). */
  lemma BlankNameRejected(s: string)
    requires AllWhitespace(s)
    ensures !ValidName(Some(s))
  {
    TrimShape(s);
  }

  /** The name that gets stored, `nome.trim()`, passes the schema again
      and is already in trimmed form. */
  lemma {:induction false} StoredNameRevalidates(s: string)
    requires ValidName(Some(s))
    ensures ValidName(Some(Trim(s)))
    ensures Trim(Trim(s)) == Trim(s)
  {
    TrimIdempotent(s);
    var t := Trim(s);
    assert Trim(t) == t;
    assert |Trim(t)| == |t|;
  }

  /** Whitespace typed around a name never changes the schema's verdict. */
  lemma {:induction false} PaddingKeepsVerdict(pad1: string, s: string, pad2: string)
    requires AllWhitespace(pad1)
    requires AllWhitespace(pad2)
    ensures ValidName(Some(pad1 + s + pad2)) == ValidName(Some(s))
  {
    TrimIgnoresPadding(pad1, s, pad2);
  }
}
