/** `MenuManager` (main.py): the in-memory menu, an ordered list of dishes
    that is appended to, deleted from by position, cleared and copied out. */
module Menu {
  import opened Dishes

  /** The list after `del dishes[index]` when `0 <= index < len(dishes)`,
      and the list as it was for any other index. */
  function Deleted(s: seq<Dish>, index: int): seq<Dish> {
    if 0 <= index < |s| then s[..index] + s[index + 1..] else s
  }

  /** Deleting in range removes exactly the element at `index`: one fewer
      element, the others in their old order, nothing else lost. */
  lemma DeletedInRange(s: seq<Dish>, index: int)
    requires 0 <= index < |s|
    ensures |Deleted(s, index)| == |s| - 1
    ensures forall j :: 0 <= j < index ==> Deleted(s, index)[j] == s[j]
    ensures forall j :: index <= j < |s| - 1 ==> Deleted(s, index)[j] == s[j + 1]
    ensures multiset(Deleted(s, index)) + multiset{s[index]} == multiset(s)
  {
    assert s == s[..index] + [s[index]] + s[index + 1..];
  }

  /** Deleting out of range changes nothing. */
  lemma DeletedOutOfRange(s: seq<Dish>, index: int)
    requires index < 0 || |s| <= index
    ensures Deleted(s, index) == s
  {
  }

  class MenuManager {
    /** `self.dishes`; a sequence is a value, so every read of it is a copy. */
    var dishes: seq<Dish>

    /** A new manager holds an empty menu. */
    constructor ()
      ensures dishes == []
    {
      dishes := [];
    }

    /** `add_dish`: the dish goes at the end, the rest stays as it was. */
    method AddDish(dish: Dish)
      modifies this
      ensures dishes == old(dishes) + [dish]
    {
      dishes := dishes + [dish];
    }

    /** `delete_dish`: removes the element at `index` when it exists and
      silently ignores any other index. */
    method DeleteDish(index: int)
      modifies this
      ensures dishes == Deleted(old(dishes), index)
      ensures 0 <= index < |old(dishes)| ==> |dishes| == |old(dishes)| - 1
      ensures !(0 <= index < |old(dishes)|) ==> dishes == old(dishes)
    {
      if 0 <= index < |dishes| {
        dishes := dishes[..index] + dishes[index + 1..];
      }
    }

    /** `clear_menu`: the menu is empty afterwards, whatever it held. */
    method ClearMenu()
      modifies this
      ensures dishes == []
    {
      dishes := [];
    }

    /** `get_menu`: the current contents, without changing them. */
    method GetMenu() returns (menu: seq<Dish>)
      ensures menu == dishes
    {
      menu := dishes;
    }
  }
}
