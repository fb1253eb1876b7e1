/** The user records the screen lists, and the merge that applies a saved
    edit to the list: `data.map(user => user.id === id ? { ...user, name,
    email, age } : user)`. */
module Users {

  datatype User = User(id: int, name: string, email: string, age: int)

  /** The ids of a list of records, in list order. */
  function Ids(data: seq<User>): (ids: seq<int>)
    ensures |ids| == |data|
    ensures forall i | 0 <= i < |data| :: ids[i] == data[i].id
  {
    if data == [] then [] else [data[0].id] + Ids(data[1..])
  }

  /** The list after a save: every record whose id is `id` takes the edited
      name, email and age and keeps its id; every other record is left as it
      is; length and order do not change. */
  function ApplyEdit(data: seq<User>, id: int, name: string, email: string, age: int): (r: seq<User>)
    ensures |r| == |data|
    ensures forall i | 0 <= i < |data| :: r[i].id == data[i].id
    ensures forall i | 0 <= i < |data| && data[i].id == id ::
              r[i].name == name && r[i].email == email && r[i].age == age
    ensures forall i | 0 <= i < |data| && data[i].id != id :: r[i] == data[i]
  {
    if data == [] then []
    else
      var u := data[0];
      [if u.id == id then u.(name := name, email := email, age := age) else u]
        + ApplyEdit(data[1..], id, name, email, age)
  }

  /** The merge keeps the ids and their order. */
  lemma ApplyEditKeepsIds(data: seq<User>, id: int, name: string, email: string, age: int)
    ensures Ids(ApplyEdit(data, id, name, email, age)) == Ids(data)
  {
  }

  /** When no record has the id, the list is unchanged. */
  lemma ApplyEditAbsentId(data: seq<User>, id: int, name: string, email: string, age: int)
    requires id !in Ids(data)
    ensures ApplyEdit(data, id, name, email, age) == data
  {
    var r := ApplyEdit(data, id, name, email, age);
    forall i | 0 <= i < |data|
      ensures r[i] == data[i]
    {
      assert Ids(data)[i] == data[i].id;
    }
  }

  /** Saving the same edit twice gives the list of saving it once. */
  lemma ApplyEditIdempotent(data: seq<User>, id: int, name: string, email: string, age: int)
    ensures var once := ApplyEdit(data, id, name, email, age);
            ApplyEdit(once, id, name, email, age) == once
  {
  }

  /** The last of two saves for the same id decides that record's fields. */
  lemma ApplyEditOverwrites(data: seq<User>, id: int, n1: string, e1: string, a1: int,
                                                    n2: string, e2: string, a2: int)
    ensures ApplyEdit(ApplyEdit(data, id, n1, e1, a1), id, n2, e2, a2)
         == ApplyEdit(data, id, n2, e2, a2)
  {
  }
}
