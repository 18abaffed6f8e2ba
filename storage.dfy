/**
 * The persistent store: one `localStorage` slot under a fixed key holding the
 * whole task list as JSON. Reading is tolerant (anything but a stored array
 * reads as the empty list and nothing is thrown); writing overwrites the slot
 * and turns a quota failure into an error of its own.
 *
 * The JSON text itself is not modelled: the slot records what `JSON.parse`
 * makes of it, and since every `Value` is plain JSON data (no `undefined`,
 * no cycles), parsing what `JSON.stringify` wrote gives the value back.
 */
module Storage {
  import opened Json

  /** The key of the one slot. */
  const STORAGE_KEY: string := "tasks"

  /** The name of the exception `setItem` throws when the quota is full. */
  const QUOTA_ERROR_NAME: string := "QuotaExceededError"

  /** The message of the error a quota failure becomes. */
  const QUOTA_MESSAGE: string := "Storage quota exceeded"

  /** What reading the slot under `STORAGE_KEY` finds. */
  datatype Slot =
    | Absent                 // `getItem` returns null
    | Unreadable             // `getItem` itself throws
    | EmptyText              // the stored text is "", which is falsy
    | Unparseable            // `JSON.parse` throws on the stored text
    | Parsed(value: Value)   // the stored text parses to `value`

  /** What `setItem` does with the text it is given: store it, or throw. */
  datatype SetItemOutcome = Stored | Throws(fault: Fault)

  /** The outcome of `saveTasks`: it returns nothing or throws. */
  datatype SaveOutcome = Saved | Failed(fault: Fault)

  /** `loadTasks()`: the stored array's elements, malformed ones included,
      when the slot holds an array; the empty list in every other case. It
      is a total function: loading never throws. */
  function LoadTasks(slot: Slot): (ts: seq<Value>)
    ensures slot.Parsed? && slot.value.Arr? ==> ts == slot.value.elems
    ensures ts != [] ==> slot == Parsed(Arr(ts))
  {
    match slot
    case Absent => []
    case Unreadable => []
    case EmptyText => []
    case Unparseable => []
    case Parsed(value) =>
      if value.Arr? then value.elems else []
  }

  /** The error `saveTasks` throws when `setItem` throws `f`: a quota failure
      becomes `Error("Storage quota exceeded")`, anything else is rethrown
      as it is. */
  function SaveFault(f: Fault): Fault
  {
    if f.name == QUOTA_ERROR_NAME then Error(QUOTA_MESSAGE) else f
  }

  /** The slot after `saveTasks(ts)`: the written list when `setItem`
      succeeded, whatever it held before otherwise. */
  function SlotAfterSave(before: Slot, ts: seq<Value>, setItem: SetItemOutcome): (after: Slot)
    ensures setItem.Stored? ==> LoadTasks(after) == ts
    ensures setItem.Throws? ==> after == before
  {
    if setItem.Stored? then Parsed(Arr(ts)) else before
  }

  /** Saving overwrites: what is read back after a successful save depends
      only on what was saved, not on what the slot held before. */
  lemma SaveOverwrites(before1: Slot, before2: Slot, ts: seq<Value>)
    ensures SlotAfterSave(before1, ts, Stored) == SlotAfterSave(before2, ts, Stored)
  {
  }

  /** The browser's `localStorage`, reduced to the one slot the application
      uses. */
  class Store {
    var slot: Slot

    /** A store whose slot starts out as `initial`. */
    constructor (initial: Slot)
      ensures slot == initial
    {
      slot := initial;
    }

    /** The list `loadTasks()` returns now. */
    function Tasks(): seq<Value>
      reads this
    {
      LoadTasks(slot)
    }

    /** `saveTasks(ts)`: write the whole list, overwriting the slot. When
        `setItem` throws, the slot keeps its old contents and the mapped
        error is thrown. */
    method Save(ts: seq<Value>, setItem: SetItemOutcome) returns (r: SaveOutcome)
      modifies this
      ensures slot == SlotAfterSave(old(slot), ts, setItem)
      ensures setItem.Stored? ==> r == Saved && Tasks() == ts
      ensures setItem.Throws? && setItem.fault.name == QUOTA_ERROR_NAME ==>
                r == Failed(Error(QUOTA_MESSAGE))
      ensures setItem.Throws? && setItem.fault.name != QUOTA_ERROR_NAME ==>
                r == Failed(setItem.fault)
    {
      match setItem
      case Stored =>
        slot := Parsed(Arr(ts));
        r := Saved;
      case Throws(fault) =>
        r := Failed(SaveFault(fault));
    }
  }
}
