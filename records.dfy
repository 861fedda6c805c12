/**
 * The records shown on the dashboard, the sort configuration kept in view
 * state, the three-state click cycle of `requestSort`, and the comparator
 * handed to `Array.prototype.sort`.
 */
module Records {
  import opened Wrappers
  import opened Text

  /**
   * One fetched comment. `phone` is `None` when the fetched object has no
   * `phone` property, which is the case for every record the dashboard
   * loads: the mapping after the fetch adds no field.
   */
  datatype Record = Record(
    id: int,
    postId: int,
    name: string,
    email: string,
    body: string,
    phone: Option<string>)

  /** The three clickable column headers. */
  datatype SortKey = PostId | Name | Email

  datatype Direction = Asc | Desc

  /** `sortConfig = { key, direction }`; `null` is `None`. */
  datatype SortConfig = SortConfig(key: Option<SortKey>, direction: Option<Direction>)

  /** The view state never holds a key without a direction or the reverse. */
  predicate WellFormed(c: SortConfig) {
    c.key.None? <==> c.direction.None?
  }

  const Unsorted := SortConfig(None, None)

  /**
   * `requestSort(key)`: the configuration after the header of column `k`
   * is clicked. Whatever the current configuration, the new one is well
   * formed; clicking the sorted column steps asc -> desc -> unsorted, and
   * any other click sorts `k` ascending.
   */
  function NextSort(c: SortConfig, k: SortKey): (r: SortConfig)
    ensures WellFormed(r)
    ensures c == SortConfig(Some(k), Some(Asc)) ==> r == SortConfig(Some(k), Some(Desc))
    ensures c == SortConfig(Some(k), Some(Desc)) ==> r == Unsorted
    ensures c.key != Some(k) || c.direction.None? ==> r == SortConfig(Some(k), Some(Asc))
    ensures r.key == None || r.key == Some(k)
  {
    if c.key == Some(k) && c.direction == Some(Asc) then SortConfig(Some(k), Some(Desc))
    else if c.key == Some(k) && c.direction == Some(Desc) then Unsorted
    else SortConfig(Some(k), Some(Asc))
  }

  /** Three clicks on one column, starting unsorted, come back to unsorted. */
  lemma ThreeClicksReset(k: SortKey)
    ensures NextSort(Unsorted, k) == SortConfig(Some(k), Some(Asc))
    ensures NextSort(NextSort(Unsorted, k), k) == SortConfig(Some(k), Some(Desc))
    ensures NextSort(NextSort(NextSort(Unsorted, k), k), k) == Unsorted
  {
  }

  /** Once column `k` is sorted, three more clicks on it give the same configuration back. */
  lemma {:induction false} CycleOfThree(c: SortConfig, k: SortKey)
    requires WellFormed(c) && c.key == Some(k)
    ensures NextSort(NextSort(NextSort(c, k), k), k) == c
  {
    match c.direction.value
    case Asc =>
      assert NextSort(c, k) == SortConfig(Some(k), Some(Desc));
    case Desc =>
      assert NextSort(c, k) == Unsorted;
  }

  /** `a[key] < b[key]` for the column `key`. */
  predicate Less(a: Record, b: Record, key: SortKey) {
    match key
    case PostId => a.postId < b.postId
    case Name => LexLess(a.name, b.name)
    case Email => LexLess(a.email, b.email)
  }

  /** The two records hold the same value in column `key`. */
  predicate SameKey(a: Record, b: Record, key: SortKey) {
    match key
    case PostId => a.postId == b.postId
    case Name => a.name == b.name
    case Email => a.email == b.email
  }

  /** Exactly one of `a < b`, `b < a` and "equal" holds on any column. */
  lemma {:induction false} Trichotomy(a: Record, b: Record, key: SortKey)
    ensures SameKey(a, b, key) ==> !Less(a, b, key) && !Less(b, a, key)
    ensures !SameKey(a, b, key) ==> (Less(a, b, key) <==> !Less(b, a, key))
  {
    match key
    case PostId =>
    case Name =>
      if a.name == b.name { LexLessIrreflexive(a.name); }
      else {
        LexLessTotal(a.name, b.name);
        if LexLess(a.name, b.name) { LexLessAsymmetric(a.name, b.name); }
      }
    case Email =>
      if a.email == b.email { LexLessIrreflexive(a.email); }
      else {
        LexLessTotal(a.email, b.email);
        if LexLess(a.email, b.email) { LexLessAsymmetric(a.email, b.email); }
      }
  }

  lemma LessTransitive(a: Record, b: Record, c: Record, key: SortKey)
    requires Less(a, b, key) && Less(b, c, key)
    ensures Less(a, c, key)
  {
    match key
    case PostId =>
    case Name => LexLessTransitive(a.name, b.name, c.name);
    case Email => LexLessTransitive(a.email, b.email, c.email);
  }

  /**
   * The comparator passed to `sort`: -1, 1 or 0 by the column value,
   * with the signs swapped for a descending sort.
   */
  function Compare(a: Record, b: Record, key: SortKey, dir: Direction): (r: int)
    ensures -1 <= r <= 1
    ensures r == 0 <==> SameKey(a, b, key)
    ensures dir == Asc ==> (r < 0 <==> Less(a, b, key))
    ensures dir == Desc ==> (r < 0 <==> Less(b, a, key))
  {
    Trichotomy(a, b, key);
    if Less(a, b, key) then (if dir == Asc then -1 else 1)
    else if Less(b, a, key) then (if dir == Asc then 1 else -1)
    else 0
  }

  /** `a` may stand before `b` in the sorted output. */
  predicate InOrder(a: Record, b: Record, key: SortKey, dir: Direction) {
    Compare(a, b, key, dir) <= 0
  }

  /** Ascending: `a` before `b` is allowed exactly when `a[key] <= b[key]`; descending the reverse. */
  lemma {:induction false} InOrderMeaning(a: Record, b: Record, key: SortKey, dir: Direction)
    ensures dir == Asc ==> (InOrder(a, b, key, dir) <==> Less(a, b, key) || SameKey(a, b, key))
    ensures dir == Desc ==> (InOrder(a, b, key, dir) <==> Less(b, a, key) || SameKey(a, b, key))
  {
    Trichotomy(a, b, key);
  }

  /** Two records the comparator puts strictly out of order are in order once swapped. */
  lemma {:induction false} InOrderSwap(a: Record, b: Record, key: SortKey, dir: Direction)
    requires !InOrder(a, b, key, dir)
    ensures InOrder(b, a, key, dir)
  {
    Trichotomy(a, b, key);
  }

  lemma {:induction false} InOrderTransitive(a: Record, b: Record, c: Record, key: SortKey, dir: Direction)
    requires InOrder(a, b, key, dir) && InOrder(b, c, key, dir)
    ensures InOrder(a, c, key, dir)
  {
    Trichotomy(a, b, key);
    Trichotomy(b, c, key);
    Trichotomy(a, c, key);
    if dir == Asc {
      if Less(c, a, key) {
        if Less(a, b, key) { LessTransitive(c, a, b, key); }
        else if Less(b, c, key) { LessTransitive(b, c, a, key); }
        else { assert false; }
      }
    } else {
      if Less(a, c, key) {
        if Less(b, a, key) { LessTransitive(b, a, c, key); }
        else if Less(c, b, key) { LessTransitive(a, c, b, key); }
        else { assert false; }
      }
    }
  }
}
