/**
 * The product list of the `Home` page: an ordered, in-memory sequence of
 * product records that grows by a validated append (`adicionarItem`) and
 * shrinks by removing every record with a given name (`removerItem`).
 */
module ProductList {

  /** One product record, with the three fields the form collects. */
  datatype Item = Item(nome: string, descricao: string, imagem: string)

  /** The guard of `adicionarItem`: some field is empty. Only the length is
      looked at, so a field made of blanks is not empty. */
  predicate Rejected(nome: string, descricao: string, imagem: string)
  {
    |nome| == 0 || |descricao| == 0 || |imagem| == 0
  }

  /** The object invariant of the page state: every stored record passed the guard. */
  ghost predicate AllComplete(itens: seq<Item>)
  {
    forall k :: 0 <= k < |itens| ==> !Rejected(itens[k].nome, itens[k].descricao, itens[k].imagem)
  }

  /** The list that `adicionarItem` leaves behind: unchanged when the guard
      rejects, otherwise the old list followed by the new record. No check on
      the name: a record whose name is already present is appended too. */
  function Add(itens: seq<Item>, nome: string, descricao: string, imagem: string): (r: seq<Item>)
    ensures Rejected(nome, descricao, imagem) ==> r == itens
    ensures !Rejected(nome, descricao, imagem) ==>
              |r| == |itens| + 1 && r[..|itens|] == itens && r[|itens|] == Item(nome, descricao, imagem)
  {
    if Rejected(nome, descricao, imagem) then itens
    else itens + [Item(nome, descricao, imagem)]
  }

  /** The list that `removerItem` leaves behind: the order-preserving filter
      keeping the records whose name differs from `nome`. */
  function Remove(itens: seq<Item>, nome: string): (r: seq<Item>)
    ensures |r| <= |itens|
    ensures forall k :: 0 <= k < |r| ==> r[k].nome != nome && r[k] in itens
  {
    if itens == [] then []
    else if itens[0].nome != nome then [itens[0]] + Remove(itens[1..], nome)
    else Remove(itens[1..], nome)
  }

  /** Counted with multiplicity, a removal keeps every record whose name
      differs as often as it occurred, and drops every record carrying the name. */
  lemma {:induction false} RemoveMultiset(itens: seq<Item>, nome: string)
    ensures forall x :: multiset(Remove(itens, nome))[x] == if x.nome == nome then 0 else multiset(itens)[x]
  {
    if itens != [] {
      RemoveMultiset(itens[1..], nome);
      assert itens == [itens[0]] + itens[1..];
    }
  }

  /** The number of records in `itens` named `nome`. */
  function CountNamed(itens: seq<Item>, nome: string): (c: nat)
    ensures c <= |itens|
    ensures c == 0 <==> forall k :: 0 <= k < |itens| ==> itens[k].nome != nome
  {
    if itens == [] then 0
    else (if itens[0].nome == nome then 1 else 0) + CountNamed(itens[1..], nome)
  }

  /** The positions, in increasing order, of the records of `itens` whose
      name differs from `nome`: an independent description of the survivors
      of a removal. */
  ghost function KeptIndices(itens: seq<Item>, nome: string): (idx: seq<nat>)
    ensures forall k :: 0 <= k < |idx| ==> idx[k] < |itens| && itens[idx[k]].nome != nome
    ensures forall k, l :: 0 <= k < l < |idx| ==> idx[k] < idx[l]
    ensures forall i :: 0 <= i < |itens| && itens[i].nome != nome ==> i in idx
    decreases |itens|
  {
    if itens == [] then []
    else
      var t := KeptIndices(itens[..|itens| - 1], nome);
      if itens[|itens| - 1].nome != nome then t + [|itens| - 1] else t
  }

  /** Removal distributes over concatenation. */
  lemma {:induction false} RemoveAppend(s: seq<Item>, t: seq<Item>, nome: string)
    ensures Remove(s + t, nome) == Remove(s, nome) + Remove(t, nome)
  {
    if s == [] {
      assert s + t == t;
    } else {
      assert (s + t)[0] == s[0];
      assert (s + t)[1..] == s[1..] + t;
      RemoveAppend(s[1..], t, nome);
    }
  }

  /** The records of `itens` at the positions `idx`, in the order of `idx`. */
  function At(itens: seq<Item>, idx: seq<nat>): (r: seq<Item>)
    requires forall k :: 0 <= k < |idx| ==> idx[k] < |itens|
    ensures |r| == |idx|
    ensures forall k :: 0 <= k < |r| ==> r[k] == itens[idx[k]]
  {
    if idx == [] then [] else [itens[idx[0]]] + At(itens, idx[1..])
  }

  /** Removing from a list with one more record at the end. */
  lemma RemoveSnoc(p: seq<Item>, x: Item, nome: string)
    ensures Remove(p + [x], nome) == if x.nome != nome then Remove(p, nome) + [x] else Remove(p, nome)
  {
    RemoveAppend(p, [x], nome);
    assert [x][1..] == [];
  }

  /** The kept positions of a list with one more record at the end. */
  lemma KeptIndicesSnoc(p: seq<Item>, x: Item, nome: string)
    ensures KeptIndices(p + [x], nome) == if x.nome != nome then KeptIndices(p, nome) + [|p|] else KeptIndices(p, nome)
  {
  }

  /** Picking positions of a prefix reads the same records in the whole list. */
  lemma AtPrefix(p: seq<Item>, x: Item, idx: seq<nat>)
    requires forall k :: 0 <= k < |idx| ==> idx[k] < |p|
    ensures At(p + [x], idx) == At(p, idx)
  {
  }

  /** Picking one more position appends one more record. */
  lemma AtSnoc(s: seq<Item>, idx: seq<nat>, i: nat)
    requires forall k :: 0 <= k < |idx| ==> idx[k] < |s|
    requires i < |s|
    ensures At(s, idx + [i]) == At(s, idx) + [s[i]]
  {
  }

  /** The survivors of a removal are exactly the records at `KeptIndices`,
      in that order: every record whose name differs keeps its relative place. */
  lemma {:induction false} RemoveKeepsOrder(itens: seq<Item>, nome: string)
    ensures Remove(itens, nome) == At(itens, KeptIndices(itens, nome))
  {
    if itens != [] {
      var p, x := itens[..|itens| - 1], itens[|itens| - 1];
      assert itens == p + [x];
      RemoveSnoc(p, x, nome);
      KeptIndicesSnoc(p, x, nome);
      RemoveKeepsOrder(p, nome);
      var ip := KeptIndices(p, nome);
      AtPrefix(p, x, ip);
      if x.nome != nome {
        AtSnoc(itens, ip, |p|);
      }
    }
  }

  /** Removing a name no record carries leaves the list as it was; in
      particular, removing from the empty list gives the empty list. */
  lemma {:induction false} RemoveAbsent(itens: seq<Item>, nome: string)
    requires forall k :: 0 <= k < |itens| ==> itens[k].nome != nome
    ensures Remove(itens, nome) == itens
  {
    if itens != [] {
      RemoveAbsent(itens[1..], nome);
      assert itens == [itens[0]] + itens[1..];
    }
  }

  /** Removing the same name twice is the same as removing it once. */
  lemma {:induction false} RemoveIdempotent(itens: seq<Item>, nome: string)
    ensures Remove(Remove(itens, nome), nome) == Remove(itens, nome)
  {
    RemoveAbsent(Remove(itens, nome), nome);
  }

  /** Removals of two names can be done in either order. */
  lemma {:induction false} RemoveCommutes(itens: seq<Item>, a: string, b: string)
    ensures Remove(Remove(itens, a), b) == Remove(Remove(itens, b), a)
  {
    if itens != [] {
      RemoveCommutes(itens[1..], a, b);
      var x := itens[0];
      if x.nome != a && x.nome != b {
        assert ([x] + Remove(itens[1..], a))[1..] == Remove(itens[1..], a);
        assert ([x] + Remove(itens[1..], b))[1..] == Remove(itens[1..], b);
      }
    }
  }

  /** One removal takes away exactly the records carrying the name, however
      many there are. */
  lemma {:induction false} RemoveCount(itens: seq<Item>, nome: string)
    ensures |Remove(itens, nome)| == |itens| - CountNamed(itens, nome)
    ensures CountNamed(Remove(itens, nome), nome) == 0
  {
    if itens != [] {
      RemoveCount(itens[1..], nome);
    }
  }

  /** The remove button of a rendered record passes that record's own name:
      the record disappears and the list gets strictly shorter. */
  lemma {:induction false} RemoveByOwnName(itens: seq<Item>, k: nat)
    requires k < |itens|
    ensures itens[k] !in Remove(itens, itens[k].nome)
    ensures |Remove(itens, itens[k].nome)| < |itens|
  {
    RemoveCount(itens, itens[k].nome);
  }

  /** Adding a record with a name already present still appends it: the
      number of records with that name goes up by one. */
  lemma {:induction false} AddAllowsDuplicateName(itens: seq<Item>, nome: string, descricao: string, imagem: string)
    requires !Rejected(nome, descricao, imagem)
    ensures CountNamed(Add(itens, nome, descricao, imagem), nome) == CountNamed(itens, nome) + 1
  {
    CountNamedAppend(itens, [Item(nome, descricao, imagem)], nome);
  }

  /** Counting distributes over concatenation. */
  lemma {:induction false} CountNamedAppend(s: seq<Item>, t: seq<Item>, nome: string)
    ensures CountNamed(s + t, nome) == CountNamed(s, nome) + CountNamed(t, nome)
  {
    if s == [] {
      assert s + t == t;
    } else {
      assert (s + t)[1..] == s[1..] + t;
      CountNamedAppend(s[1..], t, nome);
    }
  }

  /** Removing the name just added takes the new record away again, together
      with every earlier record of that name. */
  lemma {:induction false} AddThenRemoveSame(itens: seq<Item>, nome: string, descricao: string, imagem: string)
    ensures Remove(Add(itens, nome, descricao, imagem), nome) == Remove(itens, nome)
  {
    if !Rejected(nome, descricao, imagem) {
      RemoveAppend(itens, [Item(nome, descricao, imagem)], nome);
      assert [Item(nome, descricao, imagem)][1..] == [];
    }
  }

  /** Removing another name does not disturb a record just added: adding and
      removing commute. */
  lemma {:induction false} AddThenRemoveOther(itens: seq<Item>, nome: string, descricao: string, imagem: string, outro: string)
    requires outro != nome
    ensures Remove(Add(itens, nome, descricao, imagem), outro) == Add(Remove(itens, outro), nome, descricao, imagem)
  {
    if !Rejected(nome, descricao, imagem) {
      RemoveAppend(itens, [Item(nome, descricao, imagem)], outro);
      assert [Item(nome, descricao, imagem)][1..] == [];
    }
  }

  /** Fields made only of blanks pass the guard: the test is on length, with
      no trimming, so such a record is appended like any other. */
  lemma BlankFieldsAccepted(itens: seq<Item>, width: nat)
    requires width > 0
    ensures var blank := seq(width, _ => ' ');
            && !Rejected(blank, blank, blank)
            && Add(itens, blank, blank, blank) == itens + [Item(blank, blank, blank)]
  {
  }

  /** Both list operations keep every stored record complete: these are the
      function-level statements of the `Store` invariant, used by its two
      handlers. */
  lemma AddKeepsComplete(itens: seq<Item>, nome: string, descricao: string, imagem: string)
    requires AllComplete(itens)
    ensures AllComplete(Add(itens, nome, descricao, imagem))
  {
  }

  lemma RemoveKeepsComplete(itens: seq<Item>, nome: string)
    requires AllComplete(itens)
    ensures AllComplete(Remove(itens, nome))
  {
  }

  /** A session: a chair, an incomplete form, a second chair under the same
      name, then one removal of that name that takes both chairs away. */
  lemma DuplicateNamesScenario()
    ensures var one := Add([], "Chair", "Wooden chair", "http://x/img.png");
            && one == [Item("Chair", "Wooden chair", "http://x/img.png")]
            && Add(one, "", "desc", "url") == one
            && Add(one, "Chair", "Metal chair", "http://y/img.png")
                 == [Item("Chair", "Wooden chair", "http://x/img.png"), Item("Chair", "Metal chair", "http://y/img.png")]
            && Remove(Add(one, "Chair", "Metal chair", "http://y/img.png"), "Chair") == []
  {
  }

  /** The state of the `Home` component: the list held by `useState`, replaced
      as a whole by each of the two handlers. */
  class Store {
    var itens: seq<Item>

    ghost predicate Valid()
      reads this
    {
      AllComplete(itens)
    }

    /** The page starts with an empty list. */
    constructor ()
      ensures Valid() && itens == []
    {
      itens := [];
    }

    /** The form handler. Returns whether the "fill in all fields" alert is
        shown; in that case the list is left alone. */
    method AdicionarItem(nome: string, descricao: string, imagem: string) returns (alerta: bool)
      requires Valid()
      modifies this
      ensures Valid()
      ensures alerta == Rejected(nome, descricao, imagem)
      ensures itens == Add(old(itens), nome, descricao, imagem)
      ensures alerta ==> itens == old(itens)
    {
      if |nome| == 0 || |descricao| == 0 || |imagem| == 0 {
        alerta := true;
        return;
      }
      AddKeepsComplete(itens, nome, descricao, imagem);
      var novoItem := Item(nome, descricao, imagem);
      itens := itens + [novoItem];
      alerta := false;
    }

    /** The remove handler: replaces the list by its filter on the name. */
    method RemoverItem(nome: string)
      requires Valid()
      modifies this
      ensures Valid()
      ensures itens == Remove(old(itens), nome)
    {
      RemoveKeepsComplete(itens, nome);
      itens := Remove(itens, nome);
    }
  }
}
