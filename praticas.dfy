/**
 * Three self-contained pieces of the practice program: the grocery store
 * (products in nested row -> shelf -> level maps), the Vigenere-style cipher,
 * and the flatten / filter / deduplicate pipeline.
 */
module Praticas {
  import opened Common

  // ---------------------------------------------------------------------
  // The grocery store
  // ---------------------------------------------------------------------

  /** A product; its price is carried as given and never computed with. */
  datatype Product = Product(id: nat, name: string, expiringDate: string, price: real, quantity: nat)

  datatype Level = Level(products: map<nat, Product>)
  datatype Shelf = Shelf(levels: map<nat, Level>)
  datatype Row = Row(shelves: map<nat, Shelf>)

  /** The row at `r`, or the empty row that `entry().or_insert_with` would create. */
  function RowAt(rows: map<nat, Row>, r: nat): Row {
    if r in rows then rows[r] else Row(map[])
  }

  function ShelfAt(row: Row, s: nat): Shelf {
    if s in row.shelves then row.shelves[s] else Shelf(map[])
  }

  function LevelAt(shelf: Shelf, l: nat): Level {
    if l in shelf.levels then shelf.levels[l] else Level(map[])
  }

  /** The product stored under `id` at (r, s, l), if the whole path exists. */
  function Lookup(rows: map<nat, Row>, r: nat, s: nat, l: nat, id: nat): Option<Product> {
    if r in rows && s in rows[r].shelves && l in rows[r].shelves[s].levels &&
       id in rows[r].shelves[s].levels[l].products
    then Some(rows[r].shelves[s].levels[l].products[id])
    else None
  }

  /** Whether the level (r, s, l) exists. */
  predicate HasLevel(rows: map<nat, Row>, r: nat, s: nat, l: nat) {
    r in rows && s in rows[r].shelves && l in rows[r].shelves[s].levels
  }

  /** Every product is stored under its own id. */
  ghost predicate KeyedById(rows: map<nat, Row>) {
    forall r, s, l, id :: Lookup(rows, r, s, l, id).Some? ==> Lookup(rows, r, s, l, id).value.id == id
  }

  /** `rows` with the level at (r, s, l) replaced, creating the path as needed. */
  function SetLevel(rows: map<nat, Row>, r: nat, s: nat, l: nat, level: Level): map<nat, Row> {
    var row := RowAt(rows, r);
    var shelf := ShelfAt(row, s);
    rows[r := Row(row.shelves[s := Shelf(shelf.levels[l := level])])]
  }

  /** `add_product`: create the path if missing and store `p` under `p.id`, replacing any entry. */
  function Put(rows: map<nat, Row>, r: nat, s: nat, l: nat, p: Product): map<nat, Row> {
    var level := LevelAt(ShelfAt(RowAt(rows, r), s), l);
    SetLevel(rows, r, s, l, Level(level.products[p.id := p]))
  }

  /** `remove_product`: drop `id` from an existing level; a missing path changes nothing. */
  function Delete(rows: map<nat, Row>, r: nat, s: nat, l: nat, id: nat): map<nat, Row> {
    if HasLevel(rows, r, s, l) then
      var level := rows[r].shelves[s].levels[l];
      SetLevel(rows, r, s, l, Level(level.products - {id}))
    else rows
  }

  /** Replace the product stored under `id` at an existing place by `p`; otherwise change nothing. */
  function Replace(rows: map<nat, Row>, r: nat, s: nat, l: nat, id: nat, p: Product): map<nat, Row> {
    if Lookup(rows, r, s, l, id).Some? then
      var level := rows[r].shelves[s].levels[l];
      SetLevel(rows, r, s, l, Level(level.products[id := p]))
    else rows
  }

  /** After `Put`, the product is found where it was put, and every other lookup is as before. */
  lemma LookupPut(rows: map<nat, Row>, r: nat, s: nat, l: nat, p: Product, r': nat, s': nat, l': nat, id: nat)
    ensures Lookup(Put(rows, r, s, l, p), r', s', l', id) ==
            if (r', s', l', id) == (r, s, l, p.id) then Some(p) else Lookup(rows, r', s', l', id)
    ensures HasLevel(Put(rows, r, s, l, p), r', s', l') <==> HasLevel(rows, r', s', l') || (r', s', l') == (r, s, l)
  {
  }

  /** After `Delete`, the id is gone from that level, and every other lookup is as before. */
  lemma LookupDelete(rows: map<nat, Row>, r: nat, s: nat, l: nat, id: nat, r': nat, s': nat, l': nat, id': nat)
    ensures Lookup(Delete(rows, r, s, l, id), r', s', l', id') ==
            if (r', s', l', id') == (r, s, l, id) then None else Lookup(rows, r', s', l', id')
    ensures HasLevel(Delete(rows, r, s, l, id), r', s', l') <==> HasLevel(rows, r', s', l')
  {
  }

  /** After `Replace`, only the addressed product differs, and only if it was there. */
  lemma LookupReplace(rows: map<nat, Row>, r: nat, s: nat, l: nat, id: nat, p: Product,
                      r': nat, s': nat, l': nat, id': nat)
    ensures Lookup(Replace(rows, r, s, l, id, p), r', s', l', id') ==
            if (r', s', l', id') == (r, s, l, id) && Lookup(rows, r, s, l, id).Some? then Some(p)
            else Lookup(rows, r', s', l', id')
    ensures HasLevel(Replace(rows, r, s, l, id, p), r', s', l') <==> HasLevel(rows, r', s', l')
  {
  }

  /** Replacing a product by itself changes nothing. */
  lemma ReplaceSame(rows: map<nat, Row>, r: nat, s: nat, l: nat, id: nat)
    requires Lookup(rows, r, s, l, id).Some?
    ensures Replace(rows, r, s, l, id, Lookup(rows, r, s, l, id).value) == rows
  {
    var level := rows[r].shelves[s].levels[l];
    assert level.products[id := level.products[id]] == level.products;
    assert rows[r].shelves[s].levels[l := level] == rows[r].shelves[s].levels;
    assert rows[r].shelves[s := rows[r].shelves[s]] == rows[r].shelves;
    assert rows[r := rows[r]] == rows;
  }

  /** Storing, deleting and same-id replacing keep every product under its own id. */
  lemma KeyedByIdPreserved(rows: map<nat, Row>, r: nat, s: nat, l: nat, id: nat, p: Product)
    requires KeyedById(rows)
    ensures KeyedById(Put(rows, r, s, l, p))
    ensures KeyedById(Delete(rows, r, s, l, id))
    ensures p.id == id ==> KeyedById(Replace(rows, r, s, l, id, p))
  {
    forall r', s', l', id' | Lookup(Put(rows, r, s, l, p), r', s', l', id').Some?
      ensures Lookup(Put(rows, r, s, l, p), r', s', l', id').value.id == id'
    {
      LookupPut(rows, r, s, l, p, r', s', l', id');
    }
    forall r', s', l', id' | Lookup(Delete(rows, r, s, l, id), r', s', l', id').Some?
      ensures Lookup(Delete(rows, r, s, l, id), r', s', l', id').value.id == id'
    {
      LookupDelete(rows, r, s, l, id, r', s', l', id');
    }
    if p.id == id {
      forall r', s', l', id' | Lookup(Replace(rows, r, s, l, id, p), r', s', l', id').Some?
        ensures Lookup(Replace(rows, r, s, l, id, p), r', s', l', id').value.id == id'
      {
        LookupReplace(rows, r, s, l, id, p, r', s', l', id');
      }
    }
  }

  /** What `move_product` leaves behind: the product taken from `from` and stored at `to`. */
  function Moved(rows: map<nat, Row>, from: (nat, nat, nat), to: (nat, nat, nat), id: nat): map<nat, Row> {
    var found := Lookup(rows, from.0, from.1, from.2, id);
    if found.Some? then Put(Delete(rows, from.0, from.1, from.2, id), to.0, to.1, to.2, found.value)
    else rows
  }

  /**
   * A move of a present product leaves it at the destination and not at a
   * different source; every other place and id is as before, except a
   * product with the same id at the destination, which is overwritten.
   */
  lemma MoveRelocates(rows: map<nat, Row>, from: (nat, nat, nat), to: (nat, nat, nat), id: nat,
                      r': nat, s': nat, l': nat, id': nat)
    requires KeyedById(rows)
    ensures Lookup(rows, from.0, from.1, from.2, id).Some? ==>
              Lookup(Moved(rows, from, to, id), to.0, to.1, to.2, id) == Lookup(rows, from.0, from.1, from.2, id)
    ensures Lookup(rows, from.0, from.1, from.2, id).Some? && from != to ==>
              Lookup(Moved(rows, from, to, id), from.0, from.1, from.2, id).None?
    ensures ((r', s', l') != from && (r', s', l') != to) || id' != id ==>
              Lookup(Moved(rows, from, to, id), r', s', l', id') == Lookup(rows, r', s', l', id')
    ensures Lookup(rows, from.0, from.1, from.2, id).None? ==> Moved(rows, from, to, id) == rows
  {
    var found := Lookup(rows, from.0, from.1, from.2, id);
    if found.Some? {
      var mid := Delete(rows, from.0, from.1, from.2, id);
      var p := found.value;
      assert p.id == id;
      LookupPut(mid, to.0, to.1, to.2, p, to.0, to.1, to.2, id);
      LookupPut(mid, to.0, to.1, to.2, p, from.0, from.1, from.2, id);
      LookupDelete(rows, from.0, from.1, from.2, id, from.0, from.1, from.2, id);
      LookupPut(mid, to.0, to.1, to.2, p, r', s', l', id');
      LookupDelete(rows, from.0, from.1, from.2, id, r', s', l', id');
    }
  }

  /** `remove_quantity`'s rule: subtract only when there is enough; never below zero. */
  function TakeQuantity(have: nat, amount: nat): (left: nat)
    ensures left <= have
    ensures amount <= have ==> left + amount == have
    ensures amount > have ==> left == have
  {
    if have >= amount then have - amount else have
  }

  /** The nested-map store, updated in place. */
  class GroceryStore {
    var rows: map<nat, Row>

    ghost predicate Valid()
      reads this
    {
      KeyedById(rows)
    }

    constructor ()
      ensures Valid() && rows == map[]
    {
      rows := map[];
    }

    /** `add_product`. */
    method AddProduct(row: nat, shelf: nat, level: nat, product: Product)
      requires Valid()
      modifies this
      ensures Valid()
      ensures rows == Put(old(rows), row, shelf, level, product)
    {
      KeyedByIdPreserved(rows, row, shelf, level, product.id, product);
      rows := Put(rows, row, shelf, level, product);
    }

    /** `remove_product`: a missing row, shelf, level or id changes nothing. */
    method RemoveProduct(row: nat, shelf: nat, level: nat, productId: nat)
      requires Valid()
      modifies this
      ensures Valid()
      ensures rows == Delete(old(rows), row, shelf, level, productId)
    {
      KeyedByIdPreserved(rows, row, shelf, level, productId, Product(productId, [], [], 0.0, 0));
      rows := Delete(rows, row, shelf, level, productId);
    }

    /** `move_product`: take the product out of `from`, then add it at `to`; if absent, nothing changes. */
    method MoveProduct(from: (nat, nat, nat), to: (nat, nat, nat), productId: nat)
      requires Valid()
      modifies this
      ensures Valid()
      ensures rows == Moved(old(rows), from, to, productId)
    {
      var found := Lookup(rows, from.0, from.1, from.2, productId);
      if found.Some? {
        RemoveProduct(from.0, from.1, from.2, productId);
        AddProduct(to.0, to.1, to.2, found.value);
      }
    }

    /** The shared shape of the field updates: replace an existing product, else do nothing. */
    method Update(row: nat, shelf: nat, level: nat, productId: nat, p: Product)
      requires Valid() && p.id == productId
      modifies this
      ensures Valid()
      ensures rows == Replace(old(rows), row, shelf, level, productId, p)
    {
      KeyedByIdPreserved(rows, row, shelf, level, productId, p);
      if Lookup(rows, row, shelf, level, productId).Some? {
        var r := rows[row];
        var s := r.shelves[shelf];
        var l := s.levels[level];
        rows := rows[row := Row(r.shelves[shelf := Shelf(s.levels[level := Level(l.products[productId := p])])])];
      }
    }

    /** `change_name`: only the addressed product's name changes. */
    method ChangeName(row: nat, shelf: nat, level: nat, productId: nat, newName: string)
      requires Valid()
      modifies this
      ensures Valid()
      ensures var found := Lookup(old(rows), row, shelf, level, productId);
              rows == if found.Some? then Replace(old(rows), row, shelf, level, productId, found.value.(name := newName))
                      else old(rows)
    {
      var found := Lookup(rows, row, shelf, level, productId);
      if found.Some? {
        Update(row, shelf, level, productId, found.value.(name := newName));
      }
    }

    /** `add_quantity`: the addressed product's quantity grows by exactly `amount`. */
    method AddQuantity(row: nat, shelf: nat, level: nat, productId: nat, amount: nat)
      requires Valid()
      modifies this
      ensures Valid()
      ensures var found := Lookup(old(rows), row, shelf, level, productId);
              rows == if found.Some?
                      then Replace(old(rows), row, shelf, level, productId,
                                   found.value.(quantity := found.value.quantity + amount))
                      else old(rows)
    {
      var found := Lookup(rows, row, shelf, level, productId);
      if found.Some? {
        Update(row, shelf, level, productId, found.value.(quantity := found.value.quantity + amount));
      }
    }

    /** `remove_quantity`: subtract only when enough is in stock; otherwise leave it. */
    method RemoveQuantity(row: nat, shelf: nat, level: nat, productId: nat, amount: nat)
      requires Valid()
      modifies this
      ensures Valid()
      ensures var found := Lookup(old(rows), row, shelf, level, productId);
              rows == if found.Some?
                      then Replace(old(rows), row, shelf, level, productId,
                                   found.value.(quantity := TakeQuantity(found.value.quantity, amount)))
                      else old(rows)
    {
      var found := Lookup(rows, row, shelf, level, productId);
      if found.Some? {
        var p := found.value;
        if p.quantity >= amount {
          Update(row, shelf, level, productId, p.(quantity := p.quantity - amount));
        } else {
          ReplaceSame(rows, row, shelf, level, productId);
        }
      }
    }
  }

  // ---------------------------------------------------------------------
  // The cipher
  // ---------------------------------------------------------------------

  newtype Byte = x: int | 0 <= x < 256

  /**
   * One output character: the low byte of the input character plus the key
   * byte reduced to 7 bits, taken modulo 128. The `u8` sum may wrap past 255
   * in the source; wrapping does not change the result modulo 128.
   */
  function CipherChar(c: char, k: Byte): (e: char)
    ensures e as int < 128
  {
    (((c as int % 256 + k as int % 128) % 256) % 128) as char
  }

  /** `vigenere_cipher`: one output character per input character, the key used cyclically. */
  method VigenereCipher(text: string, key: seq<Byte>) returns (result: string)
    requires |text| > 0 ==> |key| > 0
    ensures |result| == |text|
    ensures forall i :: 0 <= i < |text| ==> result[i] == CipherChar(text[i], key[i % |key|])
    ensures forall i :: 0 <= i < |result| ==> result[i] as int < 128
  {
    result := [];
    for i := 0 to |text|
      invariant |result| == i
      invariant forall j :: 0 <= j < i ==> result[j] == CipherChar(text[j], key[j % |key|])
    {
      var offset := key[i % |key|] as int % 128;
      var sum := (text[i] as int % 256 + offset) % 256;
      result := result + [(sum % 128) as char];
    }
  }

  /** The inverse shift, for 7-bit text. */
  function DecipherChar(e: char, k: Byte): (c: char)
    requires e as int < 128
    ensures c as int < 128
  {
    ((e as int - k as int % 128) % 128) as char
  }

  /** On 7-bit text the shift is undone by the inverse shift with the same key byte. */
  lemma DecipherCipherChar(c: char, k: Byte)
    requires c as int < 128
    ensures DecipherChar(CipherChar(c, k), k) == c
  {
    var o := k as int % 128;
    var e := CipherChar(c, k) as int;
    assert e == (c as int + o) % 128;
    if c as int + o >= 128 {
      assert e == c as int + o - 128;
    }
  }

  /** Decipher a whole text with the same cyclic key. */
  function Decipher(cipher: string, key: seq<Byte>): (text: string)
    requires |cipher| > 0 ==> |key| > 0
    requires forall i :: 0 <= i < |cipher| ==> cipher[i] as int < 128
    ensures |text| == |cipher|
  {
    seq(|cipher|, i requires 0 <= i < |cipher| => DecipherChar(cipher[i], key[i % |key|]))
  }

  /** On 7-bit text, deciphering the cipher with the same key gives the text back. */
  lemma CipherRoundTrip(text: string, key: seq<Byte>, cipher: string)
    requires |text| > 0 ==> |key| > 0
    requires forall i :: 0 <= i < |text| ==> text[i] as int < 128
    requires |cipher| == |text| && forall i :: 0 <= i < |text| ==> cipher[i] == CipherChar(text[i], key[i % |key|])
    ensures forall i :: 0 <= i < |cipher| ==> cipher[i] as int < 128
    ensures Decipher(cipher, key) == text
  {
    forall i | 0 <= i < |text| ensures Decipher(cipher, key)[i] == text[i] {
      DecipherCipherChar(text[i], key[i % |key|]);
    }
  }

  // ---------------------------------------------------------------------
  // Flatten, filter, deduplicate
  // ---------------------------------------------------------------------

  /** The filter of the pipeline: multiples of 2 or of 3. */
  predicate Kept(x: nat) {
    x % 2 == 0 || x % 3 == 0
  }

  /** The elements of `s` that pass the filter, each once. */
  function DistinctKept(s: seq<nat>): (r: seq<nat>)
    ensures NoDuplicates(r)
    ensures forall x :: x in r <==> x in s && Kept(x)
  {
    if s == [] then []
    else
      var rest := DistinctKept(s[..|s| - 1]);
      var x := s[|s| - 1];
      assert forall y :: y in s <==> y in s[..|s| - 1] || y == x;
      if Kept(x) && x !in rest then rest + [x] else rest
  }

  /** All inner sequences, one after another. */
  function Flatten(nested: seq<seq<nat>>): (flat: seq<nat>)
    ensures forall x :: x in flat <==> exists i :: 0 <= i < |nested| && x in nested[i]
  {
    if nested == [] then []
    else
      var init := nested[..|nested| - 1];
      var flat := Flatten(init) + nested[|nested| - 1];
      assert forall i :: 0 <= i < |init| ==> init[i] == nested[i];
      flat
  }

  /**
   * `flatten_deduplicate_filter`: the distinct multiples of 2 or 3 occurring
   * in any inner sequence. The source collects through a hash set, so the
   * order of the result is unspecified; this model keeps first occurrences.
   */
  function FlattenDeduplicateFilter(nested: seq<seq<nat>>): (r: seq<nat>)
    ensures NoDuplicates(r)
    ensures forall x :: x in r <==> Kept(x) && exists i :: 0 <= i < |nested| && x in nested[i]
  {
    DistinctKept(Flatten(nested))
  }
}
