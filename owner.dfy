/** The owner column: a user name and a group name, each right-aligned in a
    column whose width the caller computes over the whole listing. */
module MetaOwner {
  import opened Padding
  import Color

  /** The resolved owner of a file. The uid/gid name lookups are not part of
      this model: an owner is built from the two names directly. */
  datatype Owner = Owner(user: string, group: string)

  /** `user()`: a copy of the stored user name; with the group it rebuilds
      the owner. */
  function UserName(o: Owner): (r: string)
    ensures Owner(r, o.group) == o
  {
    o.user
  }

  /** `group()`: a copy of the stored group name; with the user it rebuilds
      the owner. */
  function GroupName(o: Owner): (r: string)
    ensures Owner(o.user, r) == o
  {
    o.group
  }

  /** Building an owner from two names and reading them back gives those
      names, each from its own field. */
  lemma AccessorsReturnFields(user: string, group: string)
    ensures UserName(Owner(user, group)) == user
    ensures GroupName(Owner(user, group)) == group
  {
  }

  /** `render_user`: the user name preceded by `userAlignment - |user|`
      spaces, painted as `User`. The width must not be less than the name,
      or the source's unsigned subtraction underflows. */
  method RenderUser(o: Owner, userAlignment: nat) returns (p: Color.Painted)
    requires |o.user| <= userAlignment
    ensures p.role == Color.User
    ensures p.text == PadLeft(o.user, userAlignment)
  {
    var alignment := "";
    for i := 0 to userAlignment - |o.user|
      invariant alignment == Spaces(i)
    {
      alignment := alignment + " ";
    }
    p := Color.Painted(alignment + o.user, Color.User);
  }

  /** `render_group`: the group name preceded by `groupAlignment - |group|`
      spaces, painted as `Group`; the same precondition as RenderUser. */
  method RenderGroup(o: Owner, groupAlignment: nat) returns (p: Color.Painted)
    requires |o.group| <= groupAlignment
    ensures p.role == Color.Group
    ensures p.text == PadLeft(o.group, groupAlignment)
  {
    var alignment := "";
    for i := 0 to groupAlignment - |o.group|
      invariant alignment == Spaces(i)
    {
      alignment := alignment + " ";
    }
    p := Color.Painted(alignment + o.group, Color.Group);
  }

  /** A user name of 3 characters in a column of 10: 7 spaces, then the name. */
  lemma RenderUserExample()
    ensures PadLeft("bob", 10) == "       bob"
  {
  }
}
