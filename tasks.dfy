/**
 * The task service: description validation, the capacity-limited append,
 * the filtered and sorted listing, toggling and deleting by id. Every
 * mutation is a read-modify-write of the whole stored list through the
 * persistent store.
 *
 * Each operation that changes the store is a method proved against a step
 * function on the raw list (`AddStep`, `ToggleStep`, `DeleteStep`); the
 * promises of the service are proved about those functions.
 */
module Tasks {
  import opened Json
  import opened JsString
  import opened Storage

  /** The most raw entries the stored list may hold. */
  const MAX_TASKS: nat := 100

  /** The most UTF-16 code units a trimmed description may have. */
  const MAX_DESCRIPTION: nat := 500

  const INVALID_DESCRIPTION: string := "Description must be 1-500 characters"

  /** The message the template at src/tasks.js:41 produces from `MAX_TASKS`
      when the list is full. */
  const LIMIT_REACHED: string := "Task limit (100) reached"

  const NOT_FOUND: string := "Task not found"

  /** The TypeError the search callback `t => t.id === taskId` throws when it
      reaches a null entry (the message is the V8 engine's wording). */
  const NULL_ID_READ: Fault := Fault("TypeError", "Cannot read properties of null (reading 'id')")

  // ---------------------------------------------------------------------
  // Description validation

  /** `isValidDescription(d)`: `d` is a string whose trimmed form has
      between 1 and 500 UTF-16 code units. */
  predicate IsValidDescription(d: Arg)
  {
    match d
    case Defined(Str(s)) => 1 <= Utf16Length(Trim(s)) <= MAX_DESCRIPTION
    case _ => false
  }

  /** Only strings can be valid, and a string is valid exactly when it is
      not all whitespace and its trimmed form is at most 500 code units. */
  lemma DescriptionValidity(d: Arg)
    ensures TypeOf(d) != "string" ==> !IsValidDescription(d)
    ensures d.Defined? && d.value.Str? ==>
      (IsValidDescription(d) <==>
         !AllWhitespace(d.value.s) && Utf16Length(Trim(d.value.s)) <= MAX_DESCRIPTION)
  {
  }

  /** A string that is not all whitespace and has at most 500 code units
      before trimming is valid. */
  lemma ShortDescriptionValid(s: string)
    requires !AllWhitespace(s) && Utf16Length(s) <= MAX_DESCRIPTION
    ensures IsValidDescription(Defined(Str(s)))
  {
    TrimShortens(s);
  }

  /** A string with no whitespace at its ends and more than 500 code units
      is invalid: trimming does not shorten it. */
  lemma LongUnpaddedDescriptionInvalid(s: string)
    requires s != [] && !IsWhitespace(s[0]) && !IsWhitespace(s[|s| - 1])
    requires Utf16Length(s) > MAX_DESCRIPTION
    ensures !IsValidDescription(Defined(Str(s)))
  {
    TrimUnpadded(s);
  }

  // ---------------------------------------------------------------------
  // Task records

  /** The listing's filter: `task` is truthy and its four fields have the
      types `string`, `string`, `boolean` and `number`. */
  predicate IsTaskRecord(v: Value)
  {
    && Truthy(Defined(v))
    && TypeOf(Prop(v, "id")) == "string"
    && TypeOf(Prop(v, "description")) == "string"
    && TypeOf(Prop(v, "completed")) == "boolean"
    && TypeOf(Prop(v, "createdAt")) == "number"
  }

  /** Only objects pass the filter, and they may carry extra fields. */
  lemma TaskRecordShape(v: Value)
    ensures IsTaskRecord(v) <==>
      && v.Obj?
      && "id" in v.fields && v.fields["id"].Str?
      && "description" in v.fields && v.fields["description"].Str?
      && "completed" in v.fields && v.fields["completed"].Bool?
      && "createdAt" in v.fields && v.fields["createdAt"].Num?
  {
  }

  /** The timestamp the listing sorts by. The comparator only ever sees
      task records, whose `createdAt` is a number; any other entry reads
      as 0 here. */
  function CreatedAt(v: Value): int
  {
    if v.Obj? && "createdAt" in v.fields && v.fields["createdAt"].Num?
    then v.fields["createdAt"].n
    else 0
  }

  /** The object `addTask` builds. */
  function NewTask(id: string, description: string, now: int): (t: Value)
    ensures IsTaskRecord(t)
    ensures Prop(t, "id") == Defined(Str(id))
    ensures Prop(t, "description") == Defined(Str(description))
    ensures Prop(t, "completed") == Defined(Bool(false))
    ensures Prop(t, "createdAt") == Defined(Num(now))
  {
    Obj(map["id" := Str(id), "description" := Str(description),
            "completed" := Bool(false), "createdAt" := Num(now)])
  }

  // ---------------------------------------------------------------------
  // Listing: filter, then a stable sort newest first

  /** `tasks.filter(...)`: the raw entries that are task records, in stored
      order. */
  function WellTyped(ts: seq<Value>): (r: seq<Value>)
    ensures |r| <= |ts|
    ensures forall j :: 0 <= j < |r| ==> IsTaskRecord(r[j])
    ensures forall v: Value :: v in r <==> v in ts && IsTaskRecord(v)
  {
    if ts == [] then []
    else
      var rest := WellTyped(ts[1..]);
      assert forall v: Value :: v in ts <==> v == ts[0] || v in ts[1..];
      if IsTaskRecord(ts[0]) then [ts[0]] + rest else rest
  }

  /** Filtering distributes over concatenation. */
  lemma {:induction false} WellTypedAppend(a: seq<Value>, b: seq<Value>)
    ensures WellTyped(a + b) == WellTyped(a) + WellTyped(b)
  {
    if a == [] {
      assert a + b == b;
    } else {
      assert (a + b)[1..] == a[1..] + b;
      WellTypedAppend(a[1..], b);
    }
  }

  /** `s` is ordered by `createdAt`, newest first. */
  predicate NewestFirst(s: seq<Value>)
  {
    forall i, j :: 0 <= i < j < |s| ==> CreatedAt(s[i]) >= CreatedAt(s[j])
  }

  /** The entries of `s` created at `k`, in their order in `s`. */
  function WithCreatedAt(s: seq<Value>, k: int): (r: seq<Value>)
    ensures forall t :: t in r ==> t in s && CreatedAt(t) == k
  {
    if s == [] then []
    else
      var rest := WithCreatedAt(s[1..], k);
      if CreatedAt(s[0]) == k then [s[0]] + rest else rest
  }

  /** Insert `t` into `s` before the first entry that is not newer than it. */
  function Insert(t: Value, s: seq<Value>): (r: seq<Value>)
    ensures multiset(r) == multiset(s) + multiset{t}
    ensures forall x :: x in r <==> x == t || x in s
  {
    if s == [] || CreatedAt(s[0]) <= CreatedAt(t) then [t] + s
    else
      assert s == [s[0]] + s[1..];
      [s[0]] + Insert(t, s[1..])
  }

  /** The tail of a list ordered newest first is ordered newest first. */
  lemma NewestFirstTail(s: seq<Value>)
    requires s != [] && NewestFirst(s)
    ensures NewestFirst(s[1..])
  {
    forall i, j | 0 <= i < j < |s| - 1
      ensures CreatedAt(s[1..][i]) >= CreatedAt(s[1..][j])
    {
      assert s[1..][i] == s[i + 1] && s[1..][j] == s[j + 1];
    }
  }

  /** Putting an entry at least as new as all of `s` in front of `s` keeps
      it ordered newest first. */
  lemma PrependNewest(x: Value, s: seq<Value>)
    requires NewestFirst(s)
    requires forall y :: y in s ==> CreatedAt(x) >= CreatedAt(y)
    ensures NewestFirst([x] + s)
  {
    var r := [x] + s;
    forall i, j | 0 <= i < j < |r| ensures CreatedAt(r[i]) >= CreatedAt(r[j]) {
      assert r[j] == s[j - 1];
      if i > 0 {
        assert r[i] == s[i - 1];
      } else {
        assert s[j - 1] in s;
      }
    }
  }

  /** Inserting into a list ordered newest first keeps it so. */
  lemma {:induction false} InsertNewestFirst(t: Value, s: seq<Value>)
    requires NewestFirst(s)
    ensures NewestFirst(Insert(t, s))
  {
    if s == [] || CreatedAt(s[0]) <= CreatedAt(t) {
      forall y | y in s ensures CreatedAt(t) >= CreatedAt(y) {
        NewestHeadIsMax(s, y);
      }
      PrependNewest(t, s);
    } else {
      var rest := Insert(t, s[1..]);
      NewestFirstTail(s);
      InsertNewestFirst(t, s[1..]);
      forall y | y in rest ensures CreatedAt(s[0]) >= CreatedAt(y) {
        if y != t {
          assert y in s;
          NewestHeadIsMax(s, y);
        }
      }
      PrependNewest(s[0], rest);
    }
  }

  /** `validTasks.sort((a, b) => b.createdAt - a.createdAt)`: a stable sort,
      newest first. */
  function SortNewestFirst(s: seq<Value>): (r: seq<Value>)
    ensures multiset(r) == multiset(s)
    ensures NewestFirst(r)
  {
    if s == [] then []
    else
      assert s == [s[0]] + s[1..];
      InsertNewestFirst(s[0], SortNewestFirst(s[1..]));
      Insert(s[0], SortNewestFirst(s[1..]))
  }

  /** Inserting `t` places it before every entry created at the same time. */
  lemma {:induction false} InsertStable(t: Value, s: seq<Value>, k: int)
    ensures WithCreatedAt(Insert(t, s), k) ==
            (if CreatedAt(t) == k then [t] else []) + WithCreatedAt(s, k)
  {
    if s == [] || CreatedAt(s[0]) <= CreatedAt(t) {
      assert ([t] + s)[1..] == s;
    } else {
      var rest := Insert(t, s[1..]);
      assert ([s[0]] + rest)[1..] == rest;
      InsertStable(t, s[1..], k);
    }
  }

  /** The sort is stable: entries with equal timestamps keep their order. */
  lemma {:induction false} SortStable(s: seq<Value>, k: int)
    ensures WithCreatedAt(SortNewestFirst(s), k) == WithCreatedAt(s, k)
  {
    if s != [] {
      SortStable(s[1..], k);
      InsertStable(s[0], SortNewestFirst(s[1..]), k);
    }
  }

  /** Dropping the head of `s` drops it from its own timestamp group only. */
  lemma GroupsOfTail(s: seq<Value>, k: int)
    requires s != []
    ensures WithCreatedAt(s[1..], k) ==
            WithCreatedAt(s, k)[(if CreatedAt(s[0]) == k then 1 else 0)..]
  {
  }

  /** Two non-empty lists ordered newest first with the same entries at
      every timestamp start with the same entry. */
  lemma SameGroupsSameHead(a: seq<Value>, b: seq<Value>)
    requires a != [] && b != []
    requires NewestFirst(a) && NewestFirst(b)
    requires forall k :: WithCreatedAt(a, k) == WithCreatedAt(b, k)
    ensures a[0] == b[0]
  {
    var ka, kb := CreatedAt(a[0]), CreatedAt(b[0]);
    var ga, gb := WithCreatedAt(a, ka), WithCreatedAt(b, kb);
    assert ga[0] == a[0] && gb[0] == b[0];
    assert ga == WithCreatedAt(b, ka) && gb == WithCreatedAt(a, kb);
    NewestHeadIsMax(b, ga[0]);
    NewestHeadIsMax(a, gb[0]);
  }

  /** Two lists ordered newest first with the same entries at every
      timestamp, in the same order, are equal. */
  lemma {:induction false} NewestFirstDeterminedByGroups(a: seq<Value>, b: seq<Value>)
    requires NewestFirst(a) && NewestFirst(b)
    requires forall k :: WithCreatedAt(a, k) == WithCreatedAt(b, k)
    ensures a == b
  {
    assert a != [] ==> WithCreatedAt(a, CreatedAt(a[0])) != [];
    assert b != [] ==> WithCreatedAt(b, CreatedAt(b[0])) != [];
    if a != [] && b != [] {
      SameGroupsSameHead(a, b);
      forall k ensures WithCreatedAt(a[1..], k) == WithCreatedAt(b[1..], k) {
        GroupsOfTail(a, k);
        GroupsOfTail(b, k);
      }
      NewestFirstTail(a);
      NewestFirstTail(b);
      NewestFirstDeterminedByGroups(a[1..], b[1..]);
      assert a == [a[0]] + a[1..] && b == [b[0]] + b[1..];
    }
  }

  /** The head of a list ordered newest first is at least as new as any of
      its entries. */
  lemma NewestHeadIsMax(s: seq<Value>, t: Value)
    requires NewestFirst(s) && t in s
    ensures CreatedAt(s[0]) >= CreatedAt(t)
  {
    var j :| 0 <= j < |s| && s[j] == t;
  }

  /** Whatever stable algorithm sorts `s` newest first yields
      `SortNewestFirst(s)`: a list ordered newest first that keeps the order
      of equal timestamps is that one. */
  lemma StableSortUnique(s: seq<Value>, r: seq<Value>)
    requires NewestFirst(r)
    requires forall k :: WithCreatedAt(r, k) == WithCreatedAt(s, k)
    ensures r == SortNewestFirst(s)
  {
    forall k ensures WithCreatedAt(r, k) == WithCreatedAt(SortNewestFirst(s), k) {
      SortStable(s, k);
    }
    NewestFirstDeterminedByGroups(r, SortNewestFirst(s));
  }

  /** `getAllTasks()`: the task records of the stored list, sorted newest
      first. It is total: listing never throws. */
  function GetAllTasks(slot: Slot): (listed: seq<Value>)
  {
    SortNewestFirst(WellTyped(LoadTasks(slot)))
  }

  /** The listing holds exactly the stored entries that are task records,
      each as often as it is stored; it is ordered newest first; and entries
      with equal timestamps keep their stored order. */
  lemma ListingSpec(slot: Slot)
    ensures forall v :: v in GetAllTasks(slot) <==> v in LoadTasks(slot) && IsTaskRecord(v)
    ensures multiset(GetAllTasks(slot)) == multiset(WellTyped(LoadTasks(slot)))
    ensures NewestFirst(GetAllTasks(slot))
    ensures forall k :: WithCreatedAt(GetAllTasks(slot), k) == WithCreatedAt(WellTyped(LoadTasks(slot)), k)
  {
    var valid := WellTyped(LoadTasks(slot));
    var listed := GetAllTasks(slot);
    forall v ensures v in listed <==> v in valid {
      assert v in listed <==> v in multiset(listed);
      assert v in valid <==> v in multiset(valid);
    }
    forall k ensures WithCreatedAt(listed, k) == WithCreatedAt(valid, k) {
      SortStable(valid, k);
    }
  }

  // ---------------------------------------------------------------------
  // Search by id

  /** `t.id === taskId` for a non-null entry `t`. */
  predicate HasId(v: Value, id: string)
  {
    Prop(v, "id") == Defined(Str(id))
  }

  /** The search stops at `v`: the callback throws on null and answers true
      on a matching id. */
  predicate StopsAt(v: Value, id: string)
  {
    v == Null || HasId(v, id)
  }

  /** What `find`/`findIndex` with the callback `t => t.id === taskId` does:
      find a match, throw on a null entry, or find nothing. */
  datatype Search = Found(index: nat) | NullAt(index: nat) | Missing

  /** The search from position `from` on: it ends at the first entry where
      the callback throws or matches, and every entry it passed over is
      neither null nor a match. */
  function Scan(ts: seq<Value>, id: string, from: nat): (r: Search)
    requires from <= |ts|
    ensures r.Found? ==> from <= r.index < |ts| && HasId(ts[r.index], id)
    ensures r.NullAt? ==> from <= r.index < |ts| && ts[r.index] == Null
    ensures r.Found? || r.NullAt? ==> forall j :: from <= j < r.index ==> !StopsAt(ts[j], id)
    ensures r.Missing? ==> forall j :: from <= j < |ts| ==> !StopsAt(ts[j], id)
    decreases |ts| - from
  {
    if from == |ts| then Missing
    else if ts[from] == Null then NullAt(from)
    else if HasId(ts[from], id) then Found(from)
    else Scan(ts, id, from + 1)
  }

  /** The search loop of `find`/`findIndex` over the loaded list. */
  method FindTask(tasks: seq<Value>, id: string) returns (r: Search)
    ensures r == Scan(tasks, id, 0)
  {
    var i := 0;
    while i < |tasks|
      invariant i <= |tasks|
      invariant Scan(tasks, id, i) == Scan(tasks, id, 0)
    {
      if tasks[i] == Null {
        return NullAt(i);
      }
      if HasId(tasks[i], id) {
        return Found(i);
      }
      i := i + 1;
    }
    return Missing;
  }

  // ---------------------------------------------------------------------
  // The three mutations, as functions of the loaded raw list

  /** `addTask`: validation first, then the capacity check on the raw
      stored length (malformed entries count), then the append of a fresh
      task. On success the new list and the new task. */
  function AddStep(ts: seq<Value>, description: Arg, id: string, now: int)
    : (r: Result<(seq<Value>, Value)>)
    ensures !IsValidDescription(description) ==> r == Err(Error(INVALID_DESCRIPTION))
    ensures IsValidDescription(description) && |ts| >= MAX_TASKS ==> r == Err(Error(LIMIT_REACHED))
    ensures r.Ok? <==> IsValidDescription(description) && |ts| < MAX_TASKS
    ensures r.Ok? ==>
      var (ts', t) := r.value;
      && ts' == ts + [t]
      && IsTaskRecord(t)
      && Prop(t, "id") == Defined(Str(id))
      && Prop(t, "description") == Defined(Str(Trim(description.value.s)))
      && Prop(t, "completed") == Defined(Bool(false))
      && Prop(t, "createdAt") == Defined(Num(now))
  {
    if !IsValidDescription(description) then Err(Error(INVALID_DESCRIPTION))
    else if |ts| >= MAX_TASKS then Err(Error(LIMIT_REACHED))
    else
      var t := NewTask(id, Trim(description.value.s), now);
      Ok((ts + [t], t))
  }

  /** `task.completed = !task.completed` on an object. */
  function Toggled(v: Value): (t: Value)
    requires v.Obj?
    ensures t.Obj? && t.fields.Keys == v.fields.Keys + {"completed"}
    ensures Prop(t, "completed") == Defined(Bool(!Truthy(Prop(v, "completed"))))
    ensures forall k :: k != "completed" ==> Prop(t, k) == Prop(v, k)
  {
    Obj(v.fields["completed" := Bool(!Truthy(Prop(v, "completed")))])
  }

  /** `toggleTask`: flip `completed` on the first raw entry with that id;
      every other entry, and every other field of that entry, is kept. */
  function ToggleStep(ts: seq<Value>, id: string): (r: Result<(seq<Value>, Value)>)
    ensures Scan(ts, id, 0).Missing? ==> r == Err(Error(NOT_FOUND))
    ensures Scan(ts, id, 0).NullAt? ==> r == Err(NULL_ID_READ)
    ensures r.Ok? <==> Scan(ts, id, 0).Found?
    ensures r.Ok? ==>
      var (ts', t) := r.value;
      var i := Scan(ts, id, 0).index;
      && |ts'| == |ts|
      && ts'[i] == t
      && (forall j :: 0 <= j < |ts| && j != i ==> ts'[j] == ts[j])
      && HasId(t, id)
      && Prop(t, "completed") == Defined(Bool(!Truthy(Prop(ts[i], "completed"))))
      && (forall k :: k != "completed" ==> Prop(t, k) == Prop(ts[i], k))
  {
    match Scan(ts, id, 0)
    case Missing => Err(Error(NOT_FOUND))
    case NullAt(_) => Err(NULL_ID_READ)
    case Found(i) =>
      var t := Toggled(ts[i]);
      Ok((ts[i := t], t))
  }

  /** `deleteTask`: splice out the first raw entry with that id; the others
      keep their order. */
  function DeleteStep(ts: seq<Value>, id: string): (r: Result<seq<Value>>)
    ensures Scan(ts, id, 0).Missing? ==> r == Err(Error(NOT_FOUND))
    ensures Scan(ts, id, 0).NullAt? ==> r == Err(NULL_ID_READ)
    ensures r.Ok? <==> Scan(ts, id, 0).Found?
    ensures r.Ok? ==>
      var i := Scan(ts, id, 0).index;
      && |r.value| == |ts| - 1
      && HasId(ts[i], id)
      && r.value == ts[..i] + ts[i + 1..]
  {
    match Scan(ts, id, 0)
    case Missing => Err(Error(NOT_FOUND))
    case NullAt(_) => Err(NULL_ID_READ)
    case Found(i) => Ok(ts[..i] + ts[i + 1..])
  }

  // ---------------------------------------------------------------------
  // What the mutations promise

  /** The capacity invariant: when the raw list holds at most 100 entries
      before an operation, it holds at most 100 after it. */
  lemma CapacityInvariant(ts: seq<Value>, description: Arg, id: string, now: int)
    requires |ts| <= MAX_TASKS
    ensures AddStep(ts, description, id, now).Ok? ==>
              |AddStep(ts, description, id, now).value.0| <= MAX_TASKS
    ensures ToggleStep(ts, id).Ok? ==> |ToggleStep(ts, id).value.0| <= MAX_TASKS
    ensures DeleteStep(ts, id).Ok? ==> |DeleteStep(ts, id).value| <= MAX_TASKS
  {
  }

  /** The limit counts raw entries: a stored list of 100 malformed entries
      lists nothing and still refuses every new task. */
  lemma MalformedEntriesFillCapacity(ts: seq<Value>, description: Arg, id: string, now: int)
    requires |ts| >= MAX_TASKS
    requires forall j :: 0 <= j < |ts| ==> !IsTaskRecord(ts[j])
    requires IsValidDescription(description)
    ensures GetAllTasks(Parsed(Arr(ts))) == []
    ensures AddStep(ts, description, id, now) == Err(Error(LIMIT_REACHED))
  {
  }

  /** After a successful `addTask` the listing read back from the store
      holds the new task once more than it did, and everything else it
      held before. */
  lemma AddedTaskListed(ts: seq<Value>, description: Arg, id: string, now: int)
    requires AddStep(ts, description, id, now).Ok?
    ensures var (ts', t) := AddStep(ts, description, id, now).value;
      && multiset(GetAllTasks(Parsed(Arr(ts')))) == multiset(GetAllTasks(Parsed(Arr(ts)))) + multiset{t}
      && t in GetAllTasks(Parsed(Arr(ts')))
  {
    var (ts', t) := AddStep(ts, description, id, now).value;
    WellTypedAppend(ts, [t]);
    assert WellTyped([t]) == [t];
    ListingSpec(Parsed(Arr(ts)));
    ListingSpec(Parsed(Arr(ts')));
  }

  /** A task added with a timestamp later than every listed one comes first
      in the listing. */
  lemma NewestAddedListedFirst(ts: seq<Value>, description: Arg, id: string, now: int)
    requires AddStep(ts, description, id, now).Ok?
    requires forall v :: v in ts && IsTaskRecord(v) ==> CreatedAt(v) < now
    ensures var (ts', t) := AddStep(ts, description, id, now).value;
      && GetAllTasks(Parsed(Arr(ts'))) != []
      && GetAllTasks(Parsed(Arr(ts')))[0] == t
  {
    var (ts', t) := AddStep(ts, description, id, now).value;
    var listed := GetAllTasks(Parsed(Arr(ts')));
    AddedTaskListed(ts, description, id, now);
    ListingSpec(Parsed(Arr(ts')));
    NewestHeadIsMax(listed, t);
    assert listed[0] in listed;
    assert listed[0] in ts + [t];
  }

  /** The search result depends only on the entries up to the one it stops
      at: replacing that entry by another with the same id finds it again. */
  lemma ScanFindsReplaced(ts: seq<Value>, id: string, i: nat, t: Value)
    requires Scan(ts, id, 0) == Found(i)
    requires HasId(t, id)
    ensures Scan(ts[i := t], id, 0) == Found(i)
  {
    var ts' := ts[i := t];
    var r := Scan(ts', id, 0);
    assert forall j :: 0 <= j < i ==> ts'[j] == ts[j];
    assert StopsAt(ts'[i], id);
  }

  /** Toggling twice restores a boolean `completed`: the stored list and the
      returned task are the original ones again. */
  lemma ToggleTwiceRestores(ts: seq<Value>, id: string)
    requires ToggleStep(ts, id).Ok?
    requires TypeOf(Prop(ts[Scan(ts, id, 0).index], "completed")) == "boolean"
    ensures var ts1 := ToggleStep(ts, id).value.0;
      ToggleStep(ts1, id) == Ok((ts, ts[Scan(ts, id, 0).index]))
  {
    var i := Scan(ts, id, 0).index;
    var (ts1, t1) := ToggleStep(ts, id).value;
    ScanFindsReplaced(ts, id, i, t1);
    var v := ts[i];
    var t2 := Toggled(t1);
    assert t2.fields == v.fields;
    assert t2 == v;
    assert ts1[i := t2] == ts;
  }

  /** Toggling changes the listing only at the toggled entry. A task record
      stays one; an entry whose only defect was a missing or non-boolean
      `completed` becomes one. */
  lemma ToggleListing(ts: seq<Value>, id: string)
    requires ToggleStep(ts, id).Ok?
    ensures var i := Scan(ts, id, 0).index;
      var (ts', t) := ToggleStep(ts, id).value;
      && WellTyped(ts) == WellTyped(ts[..i]) + WellTyped([ts[i]]) + WellTyped(ts[i + 1..])
      && WellTyped(ts') == WellTyped(ts[..i]) + WellTyped([t]) + WellTyped(ts[i + 1..])
      && (IsTaskRecord(t) <==>
            && TypeOf(Prop(ts[i], "id")) == "string"
            && TypeOf(Prop(ts[i], "description")) == "string"
            && TypeOf(Prop(ts[i], "createdAt")) == "number")
  {
    var i := Scan(ts, id, 0).index;
    var (ts', t) := ToggleStep(ts, id).value;
    WellTypedAround(ts, i, ts[i]);
    assert ts[i := ts[i]] == ts;
    WellTypedAround(ts, i, t);
  }

  /** Filtering a list with one entry replaced, split around that entry. */
  lemma WellTypedAround(ts: seq<Value>, i: nat, x: Value)
    requires i < |ts|
    ensures WellTyped(ts[i := x]) == WellTyped(ts[..i]) + WellTyped([x]) + WellTyped(ts[i + 1..])
  {
    assert ts[i := x] == ts[..i] + [x] + ts[i + 1..];
    WellTypedAppend(ts[..i] + [x], ts[i + 1..]);
    WellTypedAppend(ts[..i], [x]);
  }

  /** Taking one occurrence of `x` out of `a + w + b`, where `w` is `[x]` or
      is empty and `x` occurs in neither `a` nor `b`, leaves `a + b`. */
  lemma MultisetRemoveMiddle(a: seq<Value>, w: seq<Value>, b: seq<Value>, x: Value)
    requires w == [x] || (w == [] && x !in a && x !in b)
    ensures multiset(a + w + b) - multiset{x} == multiset(a + b)
  {
    assert multiset(a + w + b) == multiset(a) + multiset(w) + multiset(b);
    assert multiset(a + b) == multiset(a) + multiset(b);
    if w == [] {
      assert x !in multiset(a) + multiset(b);
    }
  }

  /** Removing the entry at `i` removes it from the listing, once, and only
      if it was listed. */
  lemma RemoveAtListing(ts: seq<Value>, i: nat)
    requires i < |ts|
    ensures WellTyped(ts[..i] + ts[i + 1..]) == WellTyped(ts[..i]) + WellTyped(ts[i + 1..])
    ensures multiset(GetAllTasks(Parsed(Arr(ts[..i] + ts[i + 1..])))) ==
            multiset(GetAllTasks(Parsed(Arr(ts)))) - multiset{ts[i]}
  {
    var x := ts[i];
    WellTypedAround(ts, i, x);
    assert ts[i := x] == ts;
    WellTypedAppend(ts[..i], ts[i + 1..]);
    ListingSpec(Parsed(Arr(ts)));
    ListingSpec(Parsed(Arr(ts[..i] + ts[i + 1..])));
    MultisetRemoveMiddle(WellTyped(ts[..i]), WellTyped([x]), WellTyped(ts[i + 1..]), x);
  }

  /** After a successful `deleteTask` the listing read back from the store
      is the old one with the removed entry taken out (once, and only if it
      was listed); the other entries keep their stored order. */
  lemma DeleteListing(ts: seq<Value>, id: string)
    requires DeleteStep(ts, id).Ok?
    ensures var i := Scan(ts, id, 0).index;
      var ts' := DeleteStep(ts, id).value;
      && WellTyped(ts') == WellTyped(ts[..i]) + WellTyped(ts[i + 1..])
      && multiset(GetAllTasks(Parsed(Arr(ts')))) ==
         multiset(GetAllTasks(Parsed(Arr(ts)))) - multiset{ts[i]}
  {
    RemoveAtListing(ts, Scan(ts, id, 0).index);
  }

  /** An id no entry has, in a list with no null entry, makes toggle and
      delete throw "Task not found". */
  lemma UnknownIdNotFound(ts: seq<Value>, id: string)
    requires forall j :: 0 <= j < |ts| ==> ts[j] != Null && !HasId(ts[j], id)
    ensures ToggleStep(ts, id) == Err(Error(NOT_FOUND))
    ensures DeleteStep(ts, id) == Err(Error(NOT_FOUND))
  {
  }

  /** A null entry before the first match makes toggle and delete throw the
      TypeError of reading `id` from null, although the listing skips null
      entries and may well show the task with that id. */
  lemma NullEntryBeforeMatchThrows(ts: seq<Value>, id: string, i: nat)
    requires i < |ts| && ts[i] == Null
    requires forall j :: 0 <= j < i ==> !StopsAt(ts[j], id)
    ensures ToggleStep(ts, id) == Err(NULL_ID_READ)
    ensures DeleteStep(ts, id) == Err(NULL_ID_READ)
    ensures !IsTaskRecord(ts[i])
  {
    var r := Scan(ts, id, 0);
    if r.Found? || r.Missing? || r.index != i {
      assert r.Found? ==> StopsAt(ts[r.index], id);
    }
  }

  // ---------------------------------------------------------------------
  // The operations over the store

  /** What an operation returns once its step succeeded and the list was
      handed to `saveTasks`. */
  function AfterSave<T>(value: T, setItem: SetItemOutcome): Result<T>
  {
    if setItem.Stored? then Ok(value) else Err(SaveFault(setItem.fault))
  }

  /** `addTask(description)`, with the new id and `Date.now()` given. */
  method AddTask(store: Store, description: Arg, id: string, now: int, setItem: SetItemOutcome)
    returns (r: Result<Value>)
    modifies store
    ensures match AddStep(old(store.Tasks()), description, id, now)
      case Err(f) => r == Err(f) && store.slot == old(store.slot)
      case Ok((ts, t)) =>
        && store.slot == SlotAfterSave(old(store.slot), ts, setItem)
        && r == AfterSave(t, setItem)
    ensures |old(store.Tasks())| <= MAX_TASKS ==> |store.Tasks()| <= MAX_TASKS
  {
    if !IsValidDescription(description) {
      return Err(Error(INVALID_DESCRIPTION));
    }
    var existing := LoadTasks(store.slot);
    if |existing| >= MAX_TASKS {
      return Err(Error(LIMIT_REACHED));
    }
    var task := NewTask(id, Trim(description.value.s), now);
    existing := existing + [task];
    var saved := store.Save(existing, setItem);
    if saved.Failed? {
      return Err(saved.fault);
    }
    return Ok(task);
  }

  /** `toggleTask(taskId)`. */
  method ToggleTask(store: Store, id: string, setItem: SetItemOutcome)
    returns (r: Result<Value>)
    modifies store
    ensures match ToggleStep(old(store.Tasks()), id)
      case Err(f) => r == Err(f) && store.slot == old(store.slot)
      case Ok((ts, t)) =>
        && store.slot == SlotAfterSave(old(store.slot), ts, setItem)
        && r == AfterSave(t, setItem)
    ensures |old(store.Tasks())| <= MAX_TASKS ==> |store.Tasks()| <= MAX_TASKS
  {
    var tasks := LoadTasks(store.slot);
    var found := FindTask(tasks, id);
    match found
    case Missing =>
      return Err(Error(NOT_FOUND));
    case NullAt(_) =>
      return Err(NULL_ID_READ);
    case Found(i) =>
      var task := Toggled(tasks[i]);
      tasks := tasks[i := task];
      var saved := store.Save(tasks, setItem);
      if saved.Failed? {
        return Err(saved.fault);
      }
      return Ok(task);
  }

  /** `deleteTask(taskId)`; on success it returns nothing. */
  method DeleteTask(store: Store, id: string, setItem: SetItemOutcome)
    returns (r: Result<()>)
    modifies store
    ensures match DeleteStep(old(store.Tasks()), id)
      case Err(f) => r == Err(f) && store.slot == old(store.slot)
      case Ok(ts) =>
        && store.slot == SlotAfterSave(old(store.slot), ts, setItem)
        && r == AfterSave((), setItem)
    ensures |old(store.Tasks())| <= MAX_TASKS ==> |store.Tasks()| <= MAX_TASKS
  {
    var tasks := LoadTasks(store.slot);
    var found := FindTask(tasks, id);
    match found
    case Missing =>
      return Err(Error(NOT_FOUND));
    case NullAt(_) =>
      return Err(NULL_ID_READ);
    case Found(i) =>
      tasks := tasks[..i] + tasks[i + 1..];
      var saved := store.Save(tasks, setItem);
      if saved.Failed? {
        return Err(saved.fault);
      }
      return Ok(());
  }
}
