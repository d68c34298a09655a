/** The catalogue of ProductsImpl.h: a thin layer over the AVL tree whose
    public contract is stated against the tree's id -> name contents. */
module Catalog {
  import opened Products
  import opened Avl

  class ProductsImpl {
    const tree: AvlTree

    ghost predicate Valid()
      reads this, tree
    {
      tree.Valid()
    }

    /** The id -> name contents of the catalogue. */
    ghost function Items(): map<int, string>
      reads this, tree
    {
      tree.Items()
    }

    constructor()
      ensures Valid() && fresh(tree) && Items() == map[]
    {
      tree := new AvlTree();
    }

    /** Adds the product when no stored product has its id; otherwise the
        insertion is cancelled. Afterwards the name of that id is the new one. */
    method AddProduct(product: Product) returns (added: bool)
      requires Valid()
      modifies tree
      ensures Valid()
      ensures added == (product.id !in old(Items()))
      ensures Items() == if added then old(Items())[product.id := product.name] else old(Items())
      ensures added ==> GetName(product.id) == product.name
    {
      added := tree.Insert(product);
    }

    /** Deletes the product with the id of the given record (its name is not
        consulted); reports whether such a product existed. Afterwards that
        id has no name. */
    method DeleteProduct(product: Product) returns (deleted: bool)
      requires Valid()
      modifies tree
      ensures Valid()
      ensures deleted == (product.id in old(Items()))
      ensures Items() == old(Items()) - {product.id}
      ensures GetName(product.id) == ""
    {
      deleted := tree.Remove(product.id);
    }

    /** The name stored for the id, or "" when there is none. */
    function GetName(id: int): (name: string)
      reads this, tree
      requires Valid()
      ensures name == if id in Items() then Items()[id] else ""
    {
      SearchById(tree.head, id)
    }

    /** The ids stored with exactly this name, each once; empty when none is. */
    function FindByName(name: string): (ids: seq<int>)
      reads this, tree
      requires Valid()
      ensures forall id :: id in ids <==> id in Items() && Items()[id] == name
      ensures Distinct(ids)
    {
      SearchByName(tree.head, name)
    }
  }
}
