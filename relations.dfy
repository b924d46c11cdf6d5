/** The add/remove endpoints for cart entries, favorites and follows, as transitions of a set
    of pairs: (user, recipe) for the cart and favorites, (user, followed author) for follows.
    Each call is taken as atomic: the existence check and the insert or delete happen together. */
module Relations {
  import opened Common

  type Pair = (nat, nat)

  /** The response of a call together with the relation it leaves. */
  datatype Toggle = Toggle(response: Response, pairs: set<Pair>)

  const CartDuplicateDetail := "Список покупок уже содержит данный рецепт!} "
  const CartAbsentDetail := "Рецепт отсутствует в списке покупок."
  const RecipeNotFoundDetail := "Рецепт не найден"

  /** Inserts p unless it is already there: afterwards p is present, no other pair has changed,
      and the call succeeded (201) exactly when p was absent; otherwise it is a 400 with
      `duplicate` as detail and the relation is untouched. */
  function Insert(pairs: set<Pair>, p: Pair, duplicate: string): (t: Toggle)
    ensures p in t.pairs
    ensures t.pairs - {p} == pairs - {p}
    ensures t.response.status == Created <==> p !in pairs
    ensures p in pairs ==> t == Toggle(Response(BadRequest, duplicate), pairs)
  {
    if p in pairs then Toggle(Response(BadRequest, duplicate), pairs)
    else Toggle(Response(Created, ""), pairs + {p})
  }

  /** Deletes p if it is there: afterwards p is absent, no other pair has changed, and the call
      succeeded (204) exactly when p was present; otherwise it is a 400 with `absent` as detail
      and the relation is untouched. */
  function Remove(pairs: set<Pair>, p: Pair, absent: string): (t: Toggle)
    ensures p !in t.pairs
    ensures t.pairs + {p} == pairs + {p}
    ensures t.response.status == NoContent <==> p in pairs
    ensures p !in pairs ==> t == Toggle(Response(BadRequest, absent), pairs)
  {
    if p !in pairs then Toggle(Response(BadRequest, absent), pairs)
    else Toggle(Response(NoContent, ""), pairs - {p})
  }

  /** No user follows themselves. */
  predicate NoSelfFollow(follows: set<Pair>) {
    forall p :: p in follows ==> p.0 != p.1
  }

  /** subscribe: refused with an empty 400 when the author is the user or the follow exists;
      otherwise exactly the pair (user, author) is added. */
  function Follow(follows: set<Pair>, user: nat, author: nat): (t: Toggle)
    ensures t.response.status == Created <==> user != author && (user, author) !in follows
    ensures t.response.status != Created ==> t == Toggle(Response(BadRequest, ""), follows)
    ensures t.response.status == Created ==> t.pairs == follows + {(user, author)}
    ensures NoSelfFollow(follows) ==> NoSelfFollow(t.pairs)
  {
    if user == author then Toggle(Response(BadRequest, ""), follows)
    else Insert(follows, (user, author), "")
  }

  /** The pairs whose first component is not x (a cascade from the user side). */
  function DropFirst(pairs: set<Pair>, x: nat): (r: set<Pair>)
    ensures forall p :: p in r <==> p in pairs && p.0 != x
  {
    set p | p in pairs && p.0 != x
  }

  /** The pairs whose second component is not in xs (a cascade from the recipe or author side). */
  function DropSecond(pairs: set<Pair>, xs: set<nat>): (r: set<Pair>)
    ensures forall p :: p in r <==> p in pairs && p.1 !in xs
  {
    set p | p in pairs && p.1 !in xs
  }

  /** Inserting an absent pair and removing it again restores the relation, both calls
      succeeding. */
  lemma InsertThenRemove(pairs: set<Pair>, p: Pair, duplicate: string, absent: string)
    requires p !in pairs
    ensures Insert(pairs, p, duplicate).response.status == Created
    ensures Remove(Insert(pairs, p, duplicate).pairs, p, absent) == Toggle(Response(NoContent, ""), pairs)
  {
  }

  /** Removing a present pair and inserting it again restores the relation. */
  lemma RemoveThenInsert(pairs: set<Pair>, p: Pair, duplicate: string, absent: string)
    requires p in pairs
    ensures Insert(Remove(pairs, p, absent).pairs, p, duplicate) == Toggle(Response(Created, ""), pairs)
  {
  }

  /** A second identical insert is refused with a 400 and changes nothing; likewise a second
      identical removal. */
  lemma RepeatRefused(pairs: set<Pair>, p: Pair, duplicate: string, absent: string)
    ensures var once := Insert(pairs, p, duplicate).pairs;
      Insert(once, p, duplicate) == Toggle(Response(BadRequest, duplicate), once)
    ensures var once := Remove(pairs, p, absent).pairs;
      Remove(once, p, absent) == Toggle(Response(BadRequest, absent), once)
  {
  }

  /** A user can never come to follow themselves through subscribe. */
  lemma NoSelfSubscription(follows: set<Pair>, user: nat)
    ensures Follow(follows, user, user) == Toggle(Response(BadRequest, ""), follows)
  {
  }
}
