/** The intrusive list of rtos/os_list.c, as the sequence of the objects linked on it.
    Only what the heap and the wait lists use of it is defined. */
module OsList {

  datatype Option<+T> = None | Some(value: T)

  function IndexOf<T(==)>(s: seq<T>, x: T): (i: nat)
    requires x in s
    ensures i < |s| && s[i] == x && x !in s[..i]
  {
    if s[0] == x then 0 else 1 + IndexOf(s[1..], x)
  }

  /** os_list_item_pre: the object before `x`, none at the head. */
  function ItemPre<T(==)>(s: seq<T>, x: T): Option<T>
    requires x in s
  {
    var i := IndexOf(s, x);
    if i == 0 then None else Some(s[i - 1])
  }

  /** os_list_remove_item */
  function RemoveItem<T(==)>(s: seq<T>, x: T): seq<T>
    requires x in s
  {
    var i := IndexOf(s, x);
    s[..i] + s[i + 1..]
  }

  /** os_list_insert_after: a null predecessor means the head of the list. */
  function InsertAfter<T(==)>(s: seq<T>, pre: Option<T>, x: T): seq<T>
    requires pre.Some? ==> pre.value in s
  {
    match pre
    case None => [x] + s
    case Some(p) =>
      var i := IndexOf(s, p);
      s[..i + 1] + [x] + s[i + 1..]
  }

  lemma IndexOfDistinct<T>(s: seq<T>, i: nat)
    requires i < |s| && forall j, k :: 0 <= j < k < |s| ==> s[j] != s[k]
    ensures IndexOf(s, s[i]) == i
  {
  }

  /** On a list without repetitions the operations act at an index. */
  lemma OpsAt<T>(s: seq<T>, i: nat, x: T)
    requires i < |s| && forall j, k :: 0 <= j < k < |s| ==> s[j] != s[k]
    ensures ItemPre(s, s[i]) == if i == 0 then None else Some(s[i - 1])
    ensures RemoveItem(s, s[i]) == s[..i] + s[i + 1..]
    ensures InsertAfter(s, Some(s[i]), x) == s[..i + 1] + ([x] + s[i + 1..])
  {
    IndexOfDistinct(s, i);
  }

  /** Linking `x` behind the object at `p`, and the same once the next one is removed. */
  lemma LinkBehind<T>(s: seq<T>, p: nat, x: T)
    requires p + 1 < |s| && forall j, k :: 0 <= j < k < |s| ==> s[j] != s[k]
    ensures var t := RemoveItem(s, s[p + 1]);
            s[p] in t && InsertAfter(t, Some(s[p]), x) == s[..p + 1] + ([x] + s[p + 2..])
  {
    OpsAt(s, p + 1, x);
    var t := s[..p + 1] + s[p + 2..];
    assert t[p] == s[p] && t[..p + 1] == s[..p + 1] && t[p + 1..] == s[p + 2..];
    OpsAt(t, p, x);
  }

  /** Linking `x` below the object at `p`, before and after that object is removed. */
  lemma LinkAt<T>(s: seq<T>, p: nat, pre: Option<T>, x: T)
    requires p < |s| && forall j, k :: 0 <= j < k < |s| ==> s[j] != s[k]
    requires pre == if p == 0 then None else Some(s[p - 1])
    ensures pre.Some? ==> pre.value in s && pre.value in RemoveItem(s, s[p])
    ensures InsertAfter(s, pre, x) == s[..p] + ([x] + s[p..])
    ensures InsertAfter(RemoveItem(s, s[p]), pre, x) == s[..p] + ([x] + s[p + 1..])
  {
    if p > 0 {
      OpsAt(s, p - 1, x);
      LinkBehind(s, p - 1, x);
    } else {
      OpsAt(s, 0, x);
      assert s[..0] == [] && s[0..] == s;
    }
  }
}
