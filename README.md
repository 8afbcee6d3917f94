# Product list manager — Dafny model

The `Home` page of this Next.js application keeps an ordered, in-memory list
of products (`itens`). Each product has a name (`nome`), a description
(`descricao`) and an image link (`imagem`). The page's form appends a product
after checking that no field is empty. Each rendered product has a remove
button that drops every product carrying that name.

`products.dfy` (module `ProductList`) models this list logic:

- `Item` is the product record built by `adicionarItem`.
- `Rejected` is the guard of `adicionarItem`. It tests only lengths, so
  whitespace-only fields are accepted.
- `Add` and `Remove` are the two list transforms as pure functions: the
  spread `[...itens, novo_item]` and the filter `itens.filter(item => item.nome != nome)`.
- `KeptIndices` (with `At`, which picks records at given positions) and
  `CountNamed` are independent descriptions of what a
  removal keeps and what it drops.
- Class `Store` is the component state. Its field `itens` is replaced by
  `AdicionarItem` and `RemoverItem`, which mirror the setter calls of the two
  handlers. `AdicionarItem` returns `true` exactly when the page would show
  its "fill in all fields" alert.
- `Store.Valid()` is the invariant that every stored product has three
  non-empty fields. Both handlers keep it.

The source compares names with JavaScript's `!=`. On two strings this is the
same as strict inequality, so the model uses Dafny's `!=` on `seq<char>`.

## Model

| member | source | states |
|---|---|---|
| ProductList.Rejected | app/page.tsx:32 | some field has length 0; only lengths are tested, so nothing is trimmed |
| ProductList.BlankFieldsAccepted | app/page.tsx:32-42 | fields made only of blanks pass the guard and the record is appended |
| ProductList.Add | app/page.tsx:32-42 | if some field is empty the list is unchanged; otherwise the result is one longer, keeps the old list as its prefix, and ends with the new record; no name-uniqueness condition |
| ProductList.Remove | app/page.tsx:46-50 | no survivor has the removed name; every survivor is a record of the input; never longer than the input |
| ProductList.RemoveMultiset | app/page.tsx:47-50 | counted with multiplicity, each record without the removed name occurs as often as before and each record with it not at all |
| ProductList.KeptIndices | app/page.tsx:47-50 | the increasing positions of exactly the records whose name differs from the removed one |
| ProductList.RemoveKeepsOrder | app/page.tsx:47-50 | the result of a removal is the records at KeptIndices, in that order: survivors keep their relative order |
| ProductList.RemoveAppend | app/page.tsx:50 | removal distributes over concatenation of lists |
| ProductList.RemoveAbsent | app/page.tsx:50 | removing a name no record has returns the same list (so the empty list gives the empty list) |
| ProductList.RemoveIdempotent | app/page.tsx:50 | removing a name twice equals removing it once |
| ProductList.RemoveCommutes | app/page.tsx:50 | removals of two names commute |
| ProductList.CountNamed | app/page.tsx:49-50 | the count of records with a name is zero exactly when no record has that name |
| ProductList.RemoveCount | app/page.tsx:49-50 | one removal drops exactly the records with the name, all of them, however many share it |
| ProductList.RemoveByOwnName | components/Item.tsx:24 | removing by a listed record's own name removes that record and shortens the list |
| ProductList.AddAllowsDuplicateName | app/page.tsx:32-42 | an accepted add raises the count of its name by one even when the name is already present |
| ProductList.CountNamedAppend | app/page.tsx:42 | counts of a name add up over concatenation |
| ProductList.AddThenRemoveSame | app/page.tsx:42-50 | removing the name just added gives the same list as removing it before the add |
| ProductList.AddThenRemoveOther | app/page.tsx:42-50 | adding a record and removing a different name commute |
| ProductList.AddKeepsComplete | app/page.tsx:32-42 | an add keeps every stored record with three non-empty fields |
| ProductList.RemoveKeepsComplete | app/page.tsx:50 | a removal keeps every stored record with three non-empty fields |
| ProductList.DuplicateNamesScenario | app/page.tsx:32-50 | a chair is added, an incomplete form is refused, a second chair is added under the same name (giving both chairs, in order), and one removal of that name empties the list |
| ProductList.Store.constructor | app/page.tsx:18 | the page state starts as the empty list, which satisfies the invariant |
| ProductList.Store.AdicionarItem | app/page.tsx:21-44 | the alert flag is true exactly when some field is empty, and then the list is untouched; the new list is Add of the old one; the invariant is kept |
| ProductList.Store.RemoverItem | app/page.tsx:46-53 | the new list is Remove of the old one; the invariant is kept |

## Left out

- The browser `alert` call (app/page.tsx:33) is a UI side effect. It is modelled as the boolean that `Store.AdicionarItem` returns.
- Reading the form (`e.preventDefault()` and the positional `e.target[0..2].value`, app/page.tsx:23-29) is DOM access. The three field values are plain string parameters.
- The browser's own `type="url"` validation of the image field (app/page.tsx:92) is done by the browser, not by the page code, so it is not modelled. Any non-empty string is accepted as an image link.
- React's `useState` scheduling (batched, asynchronous updates and closures over a stale `itens`) is not modelled. Each handler replaces the field at once.
- All rendering is not modelled: the JSX markup, the Tailwind classes, the `itens.map` list (including its `key={item.name}`), and components/Item.tsx apart from the name its remove button passes. app/layout.tsx (page metadata and fonts) is not part of this model.
