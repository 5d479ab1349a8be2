/** The route-name translation table (`translate(_:to:)`), written the same
    way in `ELRouter/Router.swift` and `THGRouter/Router.swift`. */
module Translation {
  import opened Wrappers

  datatype TranslateError = DuplicateTranslation(from: string)

  /** Adding `from -> to` fails loudly when `from` is already mapped and
      otherwise extends the table by exactly that entry. */
  function Translate(table: map<string, string>, from: string, to: string): (r: Result<map<string, string>, TranslateError>)
    ensures r.Failure? <==> from in table
    ensures r.Failure? ==> r.error == DuplicateTranslation(from)
    ensures r.Success? ==> r.value.Keys == table.Keys + {from}
    ensures r.Success? ==> r.value[from] == to
    ensures r.Success? ==> forall k :: k in table ==> k in r.value && r.value[k] == table[k]
  {
    if from in table then Failure(DuplicateTranslation(from))
    else Success(table[from := to])
  }

  /** Translating the same name twice fails the second time, whatever the
      targets, and leaves the first mapping in place. */
  lemma SecondTranslationFails(table: map<string, string>, from: string, to1: string, to2: string)
    requires from !in table
    ensures Translate(table, from, to1).Success?
    ensures Translate(Translate(table, from, to1).value, from, to2) == Failure(DuplicateTranslation(from))
  {
  }
}
