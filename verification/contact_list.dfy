/** The contact-list controller: its state, and each user action or server
    response as a transition of that state. A transition that talks to the
    backend or opens a dialog returns that request or dialog as an effect;
    the server's answer comes back later as the argument of a response
    transition (`On...`). */
module ContactList {

  import opened Optional
  import opened Contacts
  import opened Filtering
  import opened Sorting
  import opened Majority

  /** The controller's fields. */
  datatype Controller = Controller(
    contatos: seq<Contact>,             // the full list, as last loaded
    contatosFiltrados: seq<Contact>,    // the gender-filtered view; empty when no filter applies
    contatoSelecionado: Option<Contact>, // the contact last fetched for editing
    contatoFoiSelecionado: bool,        // the edit form is open
    adicionarFoiClicado: bool,          // the create form is open
    pesquisaDoUsuario: Option<string>,  // the free-text search term
    form: Form)

  /** A call on the backend. */
  datatype Request =
    | LoadAll                          // GET the whole list
    | FetchOne(id: int)                // GET one contact
    | Create(body: Form)               // POST a new contact
    | Update(id: int, body: Form)      // PUT new values for a contact
    | Delete(id: int)                  // DELETE a contact

  /** A modal dialog. */
  datatype Dialog =
    | UnderageNotice(entered: Form)    // tells the user the contact is under age
    | ConfirmRemoval(contato: Contact)  // asks the user to confirm a removal

  datatype Effect = Issue(request: Request) | Open(dialog: Dialog)

  /** The state after a transition and the effects it started. */
  datatype Step = Step(state: Controller, effects: seq<Effect>)

  /** The state after a transition that returns a value to its caller. */
  datatype Returned<T> = Returned(state: Controller, value: T)

  /** The state once the component is built and its form created. */
  const Initial: Controller := Controller([], [], None, false, false, None, BlankForm)

  /** Neither form is open. */
  predicate Idle(st: Controller)
  {
    !st.adicionarFoiClicado && !st.contatoFoiSelecionado
  }

  /** `a` and `b` hold the same lists and search term. */
  predicate SameLists(a: Controller, b: Controller)
  {
    a.contatos == b.contatos && a.contatosFiltrados == b.contatosFiltrados && a.pesquisaDoUsuario == b.pesquisaDoUsuario
  }

  /** The filtered view holds exactly the contacts of the full list whose
      `sexo` is `g`, in some order. */
  predicate ViewFilteredBy(st: Controller, g: string)
  {
    multiset(st.contatosFiltrados) == multiset(Matching(st.contatos, Sexo, g))
  }

  // ---------------------------------------------------------------------
  // The list

  /** The list response arrived: it replaces the full list. The filtered
      view is left as it was. */
  function OnContactsLoaded(st: Controller, loaded: seq<Contact>): (r: Controller)
    ensures r.contatos == loaded
    ensures r.contatosFiltrados == st.contatosFiltrados && r.pesquisaDoUsuario == st.pesquisaDoUsuario
    ensures r.form == st.form && r.contatoSelecionado == st.contatoSelecionado
    ensures r.adicionarFoiClicado == st.adicionarFoiClicado && r.contatoFoiSelecionado == st.contatoFoiSelecionado
  {
    st.(contatos := loaded)
  }

  /** `ordernar(f)`: sorts the filtered view when it is non-empty, and the
      full list otherwise, in place; returns the list it sorted. */
  function Sort(st: Controller, f: Field): (r: Returned<seq<Contact>>)
    ensures |st.contatosFiltrados| > 0 ==>
      && r.state.contatos == st.contatos
      && multiset(r.value) == multiset(st.contatosFiltrados)
      && Ordered(r.value, f)
      && r.state.contatosFiltrados == r.value
    ensures |st.contatosFiltrados| == 0 ==>
      && r.state.contatosFiltrados == st.contatosFiltrados
      && multiset(r.value) == multiset(st.contatos)
      && Ordered(r.value, f)
      && r.state.contatos == r.value
    ensures r.state.pesquisaDoUsuario == st.pesquisaDoUsuario && r.state.form == st.form
    ensures r.state.contatoSelecionado == st.contatoSelecionado
    ensures r.state.adicionarFoiClicado == st.adicionarFoiClicado && r.state.contatoFoiSelecionado == st.contatoFoiSelecionado
  {
    if |st.contatosFiltrados| > 0 then
      var sorted := SortBy(st.contatosFiltrados, f);
      Returned(st.(contatosFiltrados := sorted), sorted)
    else
      var sorted := SortBy(st.contatos, f);
      Returned(st.(contatos := sorted), sorted)
  }

  /** `filtrarPorGenero(g)`: replaces the filtered view by the contacts of
      the full list whose `sexo` is `g`, in list order; returns that view. */
  function FilterByGender(st: Controller, g: string): (r: Returned<seq<Contact>>)
    ensures r.state.contatosFiltrados == r.value
    ensures forall i :: 0 <= i < |r.value| ==> r.value[i].sexo == g
    ensures CountsMatch(r.value, st.contatos, Sexo, g)
    ensures IsSubsequence(r.value, st.contatos)
    ensures r.state.contatos == st.contatos && r.state.pesquisaDoUsuario == st.pesquisaDoUsuario
    ensures r.state.form == st.form && r.state.contatoSelecionado == st.contatoSelecionado
    ensures r.state.adicionarFoiClicado == st.adicionarFoiClicado && r.state.contatoFoiSelecionado == st.contatoFoiSelecionado
  {
    var view := Matching(st.contatos, Sexo, g);
    MatchingCounts(st.contatos, Sexo, g);
    Returned(st.(contatosFiltrados := view), view)
  }

  /** `limparFiltros`: empties the filtered view and nulls the search term. */
  function ClearFilters(st: Controller): (r: Controller)
    ensures r.contatosFiltrados == [] && r.pesquisaDoUsuario == None
    ensures r.contatos == st.contatos && r.form == st.form && r.contatoSelecionado == st.contatoSelecionado
    ensures r.adicionarFoiClicado == st.adicionarFoiClicado && r.contatoFoiSelecionado == st.contatoFoiSelecionado
  {
    st.(pesquisaDoUsuario := None, contatosFiltrados := [])
  }

  // ---------------------------------------------------------------------
  // The form

  /** `adicionarContato`: opens the create form; returns true. */
  function AddContact(st: Controller): (r: Returned<bool>)
    ensures r.value && r.state.adicionarFoiClicado
    ensures SameLists(r.state, st) && r.state.form == st.form && r.state.contatoSelecionado == st.contatoSelecionado
    ensures r.state.contatoFoiSelecionado == st.contatoFoiSelecionado
  {
    Returned(st.(adicionarFoiClicado := true), true)
  }

  /** `cancelarEdicao`: closes both forms and resets the form. */
  function CancelEdit(st: Controller): (r: Controller)
    ensures Idle(r) && r.form == ClearedForm
    ensures SameLists(r, st) && r.contatoSelecionado == st.contatoSelecionado
  {
    st.(adicionarFoiClicado := false, contatoFoiSelecionado := false, form := ClearedForm)
  }

  /** Whether the contact being saved passes the age rule today. `parse`
      reads a birth-date string as a date (None when the string is not a
      date); a missing or unreadable date gives no age, and fails the rule. */
  predicate IsAdultContact(contato: Form, today: Date, parse: string -> Option<Date>)
  {
    match contato.data_nascimento
    case None => false
    case Some(text) =>
      match parse(text)
      case None => false
      case Some(dob) => IsAdult(dob, today)
  }

  /** `salvarContato(contato)`: with an invalid form, nothing; with a valid
      form and an under-age contact, the under-age notice; otherwise a create
      request. The state does not change until the response arrives. */
  function SaveContact(st: Controller, contato: Form, today: Date, parse: string -> Option<Date>): (r: Step)
    ensures r.state == st
    ensures |r.effects| <= 1
    ensures Issue(Create(contato)) in r.effects <==> FormValid(st.form) && IsAdultContact(contato, today, parse)
    ensures Open(UnderageNotice(contato)) in r.effects <==> FormValid(st.form) && !IsAdultContact(contato, today, parse)
    ensures r.effects == [] <==> !FormValid(st.form)
  {
    if FormValid(st.form) then
      if IsAdultContact(contato, today, parse) then Step(st, [Issue(Create(contato))])
      else Step(st, [Open(UnderageNotice(contato))])
    else Step(st, [])
  }

  /** The create response arrived: reload the list, reset the form and close
      the create form. */
  function OnContactCreated(st: Controller): (r: Step)
    ensures r.effects == [Issue(LoadAll)]
    ensures r.state.form == ClearedForm && !r.state.adicionarFoiClicado
    ensures SameLists(r.state, st) && r.state.contatoSelecionado == st.contatoSelecionado
    ensures r.state.contatoFoiSelecionado == st.contatoFoiSelecionado
  {
    Step(st.(form := ClearedForm, adicionarFoiClicado := false), [Issue(LoadAll)])
  }

  /** `selecionarContato(c)`: opens the edit form and fetches `c` afresh. */
  function SelectContact(st: Controller, c: Contact): (r: Step)
    ensures r.effects == [Issue(FetchOne(c.id))]
    ensures r.state.contatoFoiSelecionado
    ensures SameLists(r.state, st) && r.state.form == st.form && r.state.contatoSelecionado == st.contatoSelecionado
    ensures r.state.adicionarFoiClicado == st.adicionarFoiClicado
  {
    Step(st.(contatoFoiSelecionado := true), [Issue(FetchOne(c.id))])
  }

  /** The fetch response arrived: remember the fetched contact and fill the
      form from it (`atualizaDadosDoFormulario`). */
  function OnContactFetched(st: Controller, fetched: Contact): (r: Controller)
    ensures r.contatoSelecionado == Some(fetched)
    ensures r.form.nome == Some(fetched.nome) && r.form.data_nascimento == Some(fetched.data_nascimento)
    ensures r.form.sexo == Some(fetched.sexo)
    ensures SameLists(r, st)
    ensures r.adicionarFoiClicado == st.adicionarFoiClicado && r.contatoFoiSelecionado == st.contatoFoiSelecionado
  {
    st.(contatoSelecionado := Some(fetched), form := FormOf(fetched))
  }

  /** `atualizarContato(c)`: sends the form's current values as the new data
      of `c`. No validity or age check is made. */
  function UpdateContact(st: Controller, c: Contact): (r: Step)
    ensures r.state == st
    ensures r.effects == [Issue(Update(c.id, st.form))]
  {
    Step(st, [Issue(Update(c.id, st.form))])
  }

  /** The update response arrived: reload the list and close both forms.
      The form keeps its values. */
  function OnContactUpdated(st: Controller): (r: Step)
    ensures r.effects == [Issue(LoadAll)]
    ensures Idle(r.state) && r.state.form == st.form
    ensures SameLists(r.state, st) && r.state.contatoSelecionado == st.contatoSelecionado
  {
    Step(st.(adicionarFoiClicado := false, contatoFoiSelecionado := false), [Issue(LoadAll)])
  }

  /** `removerContato(c)`: asks the user to confirm. */
  function RemoveContact(st: Controller, c: Contact): (r: Step)
    ensures r.state == st
    ensures r.effects == [Open(ConfirmRemoval(c))]
  {
    Step(st, [Open(ConfirmRemoval(c))])
  }

  /** The confirmation dialog closed with `confirmed`: on yes, delete the
      contact the dialog was opened for; on no, nothing. */
  function OnRemovalAnswered(st: Controller, dialog: Dialog, confirmed: bool): (r: Step)
    requires dialog.ConfirmRemoval?
    ensures r.state == st
    ensures confirmed ==> r.effects == [Issue(Delete(dialog.contato.id))]
    ensures !confirmed ==> r.effects == []
  {
    if confirmed then Step(st, [Issue(Delete(dialog.contato.id))]) else Step(st, [])
  }

  /** The delete response arrived: close the edit form, reload the list and
      reset the form. The create-form flag is left as it was. */
  function OnContactRemoved(st: Controller): (r: Step)
    ensures r.effects == [Issue(LoadAll)]
    ensures !r.state.contatoFoiSelecionado && r.state.form == ClearedForm
    ensures r.state.adicionarFoiClicado == st.adicionarFoiClicado
    ensures SameLists(r.state, st) && r.state.contatoSelecionado == st.contatoSelecionado
  {
    Step(st.(contatoFoiSelecionado := false, form := ClearedForm), [Issue(LoadAll)])
  }

}
