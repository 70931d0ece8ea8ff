/** The contact record and the contact form of the contact-list screen. */
module Contacts {

  import opened Optional

  /** A contact as the REST backend returns it. Field names follow the JSON
      schema; `id` is assigned by the backend. */
  datatype Contact = Contact(id: int, nome: string, data_nascimento: string, sexo: string)

  /** The fields a list can be sorted on. The component indexes the record
      by any field name; the model limits it to the three form fields. */
  datatype Field = Nome | DataNascimento | Sexo

  /** The value of field `f` of contact `c`. */
  function Key(c: Contact, f: Field): string
  {
    match f
    case Nome => c.nome
    case DataNascimento => c.data_nascimento
    case Sexo => c.sexo
  }

  /** The reactive form's three controls. A control holds a string, or null
      once the form has been reset. */
  datatype Form = Form(nome: Option<string>, data_nascimento: Option<string>, sexo: Option<string>)

  /** The form as first built: every control holds the empty string. */
  const BlankForm: Form := Form(Some(""), Some(""), Some(""))

  /** The form after `reset()`: every control holds null. */
  const ClearedForm: Form := Form(None, None, None)

  /** The required-field validator: a control passes when it holds a string
      of at least one character (a string of blanks passes too). */
  predicate Present(v: Option<string>)
  {
    v.Some? && |v.value| > 0
  }

  /** The form is valid when all three required controls pass. */
  predicate FormValid(form: Form)
  {
    Present(form.nome) && Present(form.data_nascimento) && Present(form.sexo)
  }

  /** The form filled from a fetched contact (the three controls set to its
      fields). */
  function FormOf(c: Contact): (r: Form)
    ensures r.nome == Some(c.nome) && r.data_nascimento == Some(c.data_nascimento) && r.sexo == Some(c.sexo)
    ensures FormValid(r) <==> c.nome != [] && c.data_nascimento != [] && c.sexo != []
  {
    Form(Some(c.nome), Some(c.data_nascimento), Some(c.sexo))
  }

  /** Neither a freshly built form nor a reset one can be submitted. */
  lemma EmptyFormsAreInvalid()
    ensures !FormValid(BlankForm) && !FormValid(ClearedForm)
  {
  }

  /** Validity is decided control by control: the form is invalid exactly
      when some control is null or the empty string. */
  lemma InvalidIffSomeControlEmpty(form: Form)
    ensures !FormValid(form) <==>
      (form.nome in {None, Some("")} || form.data_nascimento in {None, Some("")} || form.sexo in {None, Some("")})
  {
  }

  /** The icon class shown beside a contact: the Venus glyph for "Feminino",
      the Mars glyph for every other value. */
  function GenderIcon(c: Contact): (r: string)
    ensures r == "fas fa-venus" <==> c.sexo == "Feminino"
    ensures r != "fas fa-venus" ==> r == "fas fa-mars"
  {
    if c.sexo == "Feminino" then "fas fa-venus" else "fas fa-mars"
  }

}
