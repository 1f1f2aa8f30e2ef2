/**
 Binary search of a cached member list (src/mvsdol.c), with its operator set.
 */
module MemberSearch {
  import opened Bytes
  import opened Names

  /** The operator as the source passes it: a set of <, = and >. */
  datatype Op = Op(lt: bool, eq: bool, gt: bool)

  /** What a search must find: the equal entry when that is asked for and there; otherwise the
      nearest above for >, or the nearest below for <. */
  ghost predicate Finds(list: seq<Name>, name: Name, op: Op, r: Option<nat>) {
    if op.eq && name in list then r.Some? && r.value < |list| && list[r.value] == name
    else if op.gt then IsNext(list, name, r)
    else if op.lt then IsPrevious(list, name, r)
    else r.None?
  }

  /** The first entry above `name`, or none. */
  ghost predicate IsNext(list: seq<Name>, name: Name, r: Option<nat>) {
    match r
    case None => forall i | 0 <= i < |list| :: !Less(name, list[i])
    case Some(k) => k < |list| && Less(name, list[k]) && forall i | 0 <= i < k :: !Less(name, list[i])
  }

  /** The last entry below `name`, or none. */
  ghost predicate IsPrevious(list: seq<Name>, name: Name, r: Option<nat>) {
    match r
    case None => forall i | 0 <= i < |list| :: !Less(list[i], name)
    case Some(k) => k < |list| && Less(list[k], name) && forall i | k < i < |list| :: !Less(list[i], name)
  }

  /** Around a position where `list[k]` compares as given, everything before or after follows. */
  lemma Spread(list: seq<Name>, name: Name, k: nat)
    requires Ascending(list) && k < |list|
    ensures Compare(list[k], name) <= 0 ==> forall i | 0 <= i < k :: Less(list[i], name)
    ensures Compare(list[k], name) >= 0 ==> forall i | k < i < |list| :: Less(name, list[i])
  {
    CompareSame(list[k], name);
    forall i | 0 <= i < |list| && i != k
      ensures i < k && Compare(list[k], name) <= 0 ==> Less(list[i], name)
      ensures i > k && Compare(list[k], name) >= 0 ==> Less(name, list[i])
    {
      if i < k && Compare(list[k], name) <= 0 {
        LessTransitive(list[i], list[k], name);
      }
      if i > k && Compare(list[k], name) >= 0 {
        LessTransitive(name, list[k], list[i]);
      }
    }
  }

  lemma Asymmetric(name: Name, list: seq<Name>)
    ensures forall i | 0 <= i < |list| :: !(Less(name, list[i]) && Less(list[i], name))
    ensures forall i | 0 <= i < |list| :: Less(name, list[i]) || Less(list[i], name) ==> list[i] != name
  {
    forall i | 0 <= i < |list|
      ensures !(Less(name, list[i]) && Less(list[i], name))
      ensures Less(name, list[i]) || Less(list[i], name) ==> list[i] != name
    {
      CompareSame(name, list[i]);
    }
  }

  method Search(list: seq<Name>, name: Name, op: Op) returns (r: Option<nat>)
    requires Ascending(list) && (op.lt || op.eq || op.gt)
    ensures Finds(list, name, op, r)
  {
    Asymmetric(name, list);
    var low, high := 0, |list| - 1;
    while low <= high
      invariant 0 <= low <= high + 1 <= |list|
      invariant forall i | 0 <= i < low :: Less(list[i], name)
      invariant forall i | high < i < |list| :: Less(name, list[i])
    {
      var mid := (low + high) / 2;
      var c := Compare(list[mid], name);
      CompareSame(list[mid], name);
      Spread(list, name, mid);
      if c < 0 {
        low := mid + 1;
      } else if c > 0 {
        high := mid - 1;
      } else {
        if op.eq {
          return Some(mid);
        }
        if op.gt {
          return if mid + 1 < |list| then Some(mid + 1) else None;
        }
        return if mid > 0 then Some(mid - 1) else None;
      }
    }
    if op.gt {
      return if low < |list| then Some(low) else None;
    } else if op.lt {
      return if low > 0 then Some(low - 1) else None;
    }
    return None;
  }
}
