/**
 The abstract value of a cJSON tree. `Items` and `Members` follow the `next`
 chain that hangs from a node's `child` pointer. A number is its exact value.
 */
module JsonValue {
  import opened CString

  datatype Json =
    | Null
    | False
    | True
    | Number(value: real)
    | String(text: string)
    | Array(items: Items)
    | Object(members: Members)

  datatype Items = NoItem | Item(first: Json, next: Items)

  datatype Members = NoMember | Member(name: string, value: Json, next: Members)

  const INT_MAX: int := 0x7fff_ffff
  const INT_MIN: int := -0x8000_0000

  ghost predicate Int32(x: real) {
    x == x.Floor as real && INT_MIN <= x.Floor <= INT_MAX
  }

  /** The trees whose text is fixed by the printer's `%d` and string branches. */
  ghost predicate Printable(v: Json) {
    match v
    case Null | False | True => true
    case Number(x) => Int32(x)
    case String(s) => NulFree(s)
    case Array(items) => PrintableItems(items)
    case Object(members) => PrintableMembers(members)
  }

  ghost predicate PrintableItems(items: Items) {
    items.Item? ==> Printable(items.first) && PrintableItems(items.next)
  }

  ghost predicate PrintableMembers(members: Members) {
    members.Member? ==>
      NulFree(members.name) && Printable(members.value) && PrintableMembers(members.next)
  }
}
