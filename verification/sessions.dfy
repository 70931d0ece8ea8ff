/** Properties of sequences of controller transitions: what a user session
    made of several actions and responses leaves behind. */
module Sessions {

  import opened Optional
  import opened Contacts
  import opened Filtering
  import opened Sorting
  import opened Majority
  import opened ContactList
  import Collation

  // ---------------------------------------------------------------------
  // Filtering and sorting

  /** Filtering twice by the same gender leaves the same state and view as
      filtering once, and the view is itself unchanged by the filter. */
  lemma FilterTwiceIsFilterOnce(st: Controller, g: string)
    ensures FilterByGender(FilterByGender(st, g).state, g) == FilterByGender(st, g)
    ensures Matching(FilterByGender(st, g).value, Sexo, g) == FilterByGender(st, g).value
  {
    MatchingIdempotent(st.contatos, Sexo, g);
  }

  /** After the filters are cleared, sorting sorts the full list and the
      filtered view stays empty. */
  lemma ClearThenSortSortsFullList(st: Controller, f: Field)
    ensures var r := Sort(ClearFilters(st), f);
      && r.state.contatosFiltrados == []
      && r.state.contatos == r.value
      && multiset(r.value) == multiset(st.contatos)
      && Ordered(r.value, f)
  {
  }

  /** A gender filter that matches no contact leaves the view empty, so the
      next sort sorts the full list. */
  lemma EmptyFilterThenSortSortsFullList(st: Controller, g: string, f: Field)
    requires forall i :: 0 <= i < |st.contatos| ==> st.contatos[i].sexo != g
    ensures var filtered := FilterByGender(st, g).state;
      var r := Sort(filtered, f);
      && filtered.contatosFiltrados == []
      && r.state.contatos == r.value
      && multiset(r.value) == multiset(st.contatos)
      && Ordered(r.value, f)
  {
    var view := FilterByGender(st, g).value;
    forall c | Key(c, Sexo) == g
      ensures multiset(st.contatos)[c] == 0
    {
    }
    assert multiset(view) == multiset{};
  }

  /** Sorting twice on the same field gives the state sorting once gives. */
  lemma {:induction false} SortTwiceIsSortOnce(st: Controller, f: Field)
    ensures Sort(Sort(st, f).state, f) == Sort(st, f)
  {
    var once := Sort(st, f);
    if |st.contatosFiltrados| > 0 {
      SortIdempotent(st.contatosFiltrados, f);
      assert |once.state.contatosFiltrados| > 0;
    } else {
      SortIdempotent(st.contatos, f);
    }
  }

  /** Sorting keeps contacts with equal sort keys in their previous order. */
  lemma SortKeepsTiesInOrder(st: Controller, f: Field, v: string)
    ensures |st.contatosFiltrados| > 0 ==>
      Matching(Sort(st, f).value, f, v) == Matching(st.contatosFiltrados, f, v)
    ensures |st.contatosFiltrados| == 0 ==>
      Matching(Sort(st, f).value, f, v) == Matching(st.contatos, f, v)
  {
    SortStable(st.contatosFiltrados, f, v);
    SortStable(st.contatos, f, v);
  }

  // ---------------------------------------------------------------------
  // The filtered view against the full list

  /** When the filtered view is non-empty it holds exactly the contacts of the
      full list of gender `g`. */
  predicate ViewConsistent(st: Controller, g: string)
  {
    |st.contatosFiltrados| > 0 ==> ViewFilteredBy(st, g)
  }

  /** Filtering by `g` makes the view consistent with `g`; clearing the
      filters makes it consistent with any gender. */
  lemma FilterAndClearEstablishView(st: Controller, g: string, h: string)
    ensures ViewConsistent(FilterByGender(st, g).state, g)
    ensures ViewConsistent(ClearFilters(st), h)
  {
  }

  /** Sorting either list keeps the view consistent. */
  lemma {:induction false} SortPreservesView(st: Controller, f: Field, g: string)
    requires ViewConsistent(st, g)
    ensures ViewConsistent(Sort(st, f).state, g)
  {
    var r := Sort(st, f);
    if |st.contatosFiltrados| == 0 {
      assert r.state.contatosFiltrados == [];
    } else {
      MatchingRespectsPermutation(r.state.contatos, st.contatos, Sexo, g);
    }
  }

  /** The form transitions and requests leave both lists alone, and with them
      the view's consistency. */
  lemma FormTransitionsPreserveView(st: Controller, g: string, c: Contact, contato: Form,
                                    today: Date, parse: string -> Option<Date>, confirmed: bool)
    requires ViewConsistent(st, g)
    ensures ViewConsistent(AddContact(st).state, g)
    ensures ViewConsistent(CancelEdit(st), g)
    ensures ViewConsistent(SaveContact(st, contato, today, parse).state, g)
    ensures ViewConsistent(OnContactCreated(st).state, g)
    ensures ViewConsistent(SelectContact(st, c).state, g)
    ensures ViewConsistent(OnContactFetched(st, c), g)
    ensures ViewConsistent(UpdateContact(st, c).state, g)
    ensures ViewConsistent(OnContactUpdated(st).state, g)
    ensures ViewConsistent(RemoveContact(st, c).state, g)
    ensures ViewConsistent(OnRemovalAnswered(st, ConfirmRemoval(c), confirmed).state, g)
    ensures ViewConsistent(OnContactRemoved(st).state, g)
  {
  }

  /** A reload does not refilter: after a contact shown in the filtered view
      is deleted and the list reloaded, the view still shows it. */
  lemma ReloadLeavesStaleView()
    ensures var ana := Contact(1, "Ana", "1990-05-10", "Feminino");
      var st := Initial.(contatos := [ana], contatosFiltrados := [ana]);
      && ViewConsistent(st, "Feminino")
      && !ViewConsistent(OnContactsLoaded(st, []), "Feminino")
  {
    var ana := Contact(1, "Ana", "1990-05-10", "Feminino");
    assert Matching([ana], Sexo, "Feminino") == [ana];
    assert ana in multiset([ana]);
  }

  // ---------------------------------------------------------------------
  // Creating

  /** A create request goes out exactly when the form is valid and the
      contact was born on or before the same day eighteen years ago. */
  lemma SaveCreatesIffBornByCutoff(st: Controller, contato: Form, today: Date, parse: string -> Option<Date>)
    ensures Issue(Create(contato)) in SaveContact(st, contato, today, parse).effects <==>
      && FormValid(st.form)
      && contato.data_nascimento.Some?
      && parse(contato.data_nascimento.value).Some?
      && OnOrBefore(parse(contato.data_nascimento.value).value, YearsBefore(today, AgeOfMajority))
  {
  }

  /** Saving a contact who turns seventeen today opens the under-age notice
      and sends no create request. */
  lemma SaveSeventeenYearOldIsRefused(st: Controller, contato: Form, today: Date, parse: string -> Option<Date>)
    requires FormValid(st.form)
    requires contato.data_nascimento.Some?
    requires parse(contato.data_nascimento.value) == Some(YearsBefore(today, AgeOfMajority - 1))
    ensures SaveContact(st, contato, today, parse).effects == [Open(UnderageNotice(contato))]
  {
    SeventeenTodayIsMinor(today);
  }

  /** Opening the create form, saving an adult and receiving the response
      sends one create and one reload, and leaves the create form closed and
      the form reset. */
  lemma CreateSession(st: Controller, contato: Form, today: Date, parse: string -> Option<Date>)
    requires FormValid(st.form) && IsAdultContact(contato, today, parse)
    ensures var shown := AddContact(st).state;
      var saved := SaveContact(shown, contato, today, parse);
      var created := OnContactCreated(saved.state);
      && saved.effects == [Issue(Create(contato))]
      && created.effects == [Issue(LoadAll)]
      && !created.state.adicionarFoiClicado
      && created.state.form == ClearedForm
      && SameLists(created.state, st)
  {
  }

  // ---------------------------------------------------------------------
  // Editing and removing

  /** Selecting a contact and cancelling, before or after the fetch response,
      leaves the lists as they were, both forms closed and the form empty. */
  lemma SelectThenCancel(st: Controller, c: Contact, fetched: Contact)
    ensures var selected := SelectContact(st, c).state;
      var early := CancelEdit(selected);
      var late := CancelEdit(OnContactFetched(selected, fetched));
      && SameLists(early, st) && Idle(early) && early.form == ClearedForm
      && SameLists(late, st) && Idle(late) && late.form == ClearedForm
  {
  }

  /** The fetch response is not discarded by a cancel: arriving after it, it
      fills the form while both forms are closed, so a create form opened
      next starts out holding the fetched contact's values. */
  lemma LateFetchRefillsClosedForm(st: Controller, c: Contact, fetched: Contact)
    ensures var s := OnContactFetched(CancelEdit(SelectContact(st, c).state), fetched);
      && Idle(s)
      && s.form == FormOf(fetched)
      && s.contatoSelecionado == Some(fetched)
      && AddContact(s).state.form == FormOf(fetched)
  {
  }

  /** Selecting a contact and receiving it fills the form with the fetched
      record, which need not be the listed one. */
  lemma SelectFillsFormFromFetched(st: Controller, c: Contact, fetched: Contact)
    ensures var s := OnContactFetched(SelectContact(st, c).state, fetched);
      && s.contatoFoiSelecionado
      && s.form == FormOf(fetched)
      && FormValid(s.form) == (fetched.nome != [] && fetched.data_nascimento != [] && fetched.sexo != [])
  {
  }

  /** Updating sends the form's values for the selected id and, on success,
      closes both forms but keeps the values in the form. */
  lemma UpdateSession(st: Controller, c: Contact)
    ensures var sent := UpdateContact(st, c);
      var done := OnContactUpdated(sent.state);
      && sent.effects == [Issue(Update(c.id, st.form))]
      && done.effects == [Issue(LoadAll)]
      && Idle(done.state) && done.state.form == st.form
  {
  }

  /** A confirmed removal sends exactly one delete, for that contact's id,
      and its response exactly one reload; a declined one sends nothing and
      changes nothing. */
  lemma RemoveSession(st: Controller, c: Contact)
    ensures RemoveContact(st, c).effects == [Open(ConfirmRemoval(c))]
    ensures var answered := OnRemovalAnswered(RemoveContact(st, c).state, ConfirmRemoval(c), true);
      var removed := OnContactRemoved(answered.state);
      && answered.effects == [Issue(Delete(c.id))]
      && removed.effects == [Issue(LoadAll)]
      && !removed.state.contatoFoiSelecionado
      && removed.state.adicionarFoiClicado == st.adicionarFoiClicado
      && removed.state.form == ClearedForm
    ensures OnRemovalAnswered(RemoveContact(st, c).state, ConfirmRemoval(c), false) == Step(st, [])
  {
  }

  /** Nothing keeps the two forms exclusive: selecting a contact while the
      create form is open leaves both flags set. */
  lemma SelectWhileCreatingOpensBoth(st: Controller, c: Contact)
    ensures var s := SelectContact(AddContact(st).state, c).state;
      s.adicionarFoiClicado && s.contatoFoiSelecionado
  {
  }

  // ---------------------------------------------------------------------
  // A worked example

  /** Sorting ["Bruno", "Ana"] by name puts Ana first. */
  lemma SortByNameExample()
    ensures var bruno := Contact(1, "Bruno", "1990-01-01", "Masculino");
      var ana := Contact(2, "Ana", "1985-06-15", "Feminino");
      SortBy([bruno, ana], Nome) == [ana, bruno]
  {
    var bruno := Contact(1, "Bruno", "1990-01-01", "Masculino");
    var ana := Contact(2, "Ana", "1985-06-15", "Feminino");
    assert !Collation.Le("Bruno", "Ana");
    assert SortBy([ana], Nome) == [ana];
    assert [bruno, ana][1..] == [ana];
  }

}
