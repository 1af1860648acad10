/**
 The library registry (src/loader/library.c) and the growing array behind a library's symbols
 (src/memory/array.c).
 */
module Library {
  import opened Kernel
  import opened Bits

  const SYMBOL_NAME_MAX := 256

  /** struct symbol: a name and the virtual address it stands for. */
  datatype Symbol = Symbol(name: string, virt: Word)

  /** The symbol of that name that was inserted first. */
  function FirstNamed(symbols: seq<Symbol>, name: string): (r: Option<Symbol>)
    ensures r.None? <==> forall i :: 0 <= i < |symbols| ==> symbols[i].name != name
    ensures r.Some? ==> exists i :: 0 <= i < |symbols| && symbols[i] == r.value && symbols[i].name == name
                                    && forall j :: 0 <= j < i ==> symbols[j].name != name
  {
    if symbols == [] then None
    else if symbols[0].name == name then Some(symbols[0])
    else
      var r := FirstNamed(symbols[1..], name);
      assert forall i :: 0 < i < |symbols| ==> symbols[i] == symbols[1..][i - 1];
      assert r.Some? ==> forall i :: 0 <= i < |symbols[1..]| ==> symbols[1..][i] == symbols[i + 1];
      r
  }

  /** struct array: a block that is replaced by a larger copy at each insertion. */
  class SymbolArray {
    var ptr: array<Symbol>
    var total: nat

    constructor ()
      ensures Valid() && Contents() == [] && fresh(ptr)
    {
      ptr, total := new Symbol[0], 0;
    }

    ghost predicate Valid()
      reads this
    {
      ptr.Length == total
    }

    ghost function Contents(): seq<Symbol>
      reads this, ptr
    {
      ptr[..]
    }

    /** array_insert: everything is copied to a new block with one element more; the old block is not freed. */
    method Insert(elem: Symbol)
      requires Valid()
      modifies this
      ensures Valid() && fresh(ptr)
      ensures Contents() == old(Contents()) + [elem]
      ensures old(ptr)[..] == old(ptr[..])
    {
      var newPtr := new Symbol[total + 1](i => elem);
      for i := 0 to total
        invariant ptr == old(ptr) && total == old(total) && ptr[..] == old(ptr[..])
        invariant newPtr[total] == elem && forall k :: 0 <= k < i ==> newPtr[k] == ptr[k]
      {
        newPtr[i] := ptr[i];
      }
      assert newPtr[..] == ptr[..] + [elem];
      ptr := newPtr;
      total := total + 1;
    }
  }

  /** struct library: a registered name and its exported symbols. */
  class Entry {
    const name: string
    const symbols: SymbolArray

    constructor (name: string)
      ensures this.name == name && symbols.Valid() && symbols.Contents() == [] && fresh(symbols) && fresh(symbols.ptr)
    {
      this.name := name;
      symbols := new SymbolArray();
    }

    /** library_new_symbol: a name that does not fit is refused. */
    method NewSymbol(symbol: string, virt: Word) returns (res: int)
      requires symbols.Valid()
      modifies symbols
      ensures symbols.Valid()
      ensures res == if |symbol| >= 256 then -EINVARG else 0
      ensures symbols.Contents() == old(symbols.Contents()) + if res == 0 then [Symbol(symbol, virt)] else []
    {
      if |symbol| >= SYMBOL_NAME_MAX {
        return -EINVARG;
      }
      symbols.Insert(Symbol(symbol, virt));
      res := 0;
    }

    /** library_get_symbol_by_name */
    method GetSymbolByName(symbol: string) returns (r: Option<Symbol>)
      requires symbols.Valid()
      ensures r == FirstNamed(symbols.Contents(), symbol)
    {
      var i := 0;
      while i < symbols.total
        invariant 0 <= i <= symbols.total
        invariant FirstNamed(symbols.ptr[..], symbol) == FirstNamed(symbols.ptr[i..], symbol)
      {
        if symbols.ptr[i].name == symbol {
          return Some(symbols.ptr[i]);
        }
        assert symbols.ptr[i..][1..] == symbols.ptr[i + 1..];
        i := i + 1;
      }
      r := None;
    }
  }
}
