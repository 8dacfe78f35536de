/** The seen-id file: one id per line, read back as a set of stripped lines,
    extended by appending. The file is modelled by its text; a file that does
    not exist is `None`. */
module SeenStore {
  import opened Wrappers
  import opened Text

  type Store = Option<string>

  /** The text of the store; a missing file reads like an empty one. */
  function Content(store: Store): string {
    store.GetOr("")
  }

  /** Empty or ending in a newline: appending a line then starts a new line. */
  predicate Terminated(s: string) {
    s == [] || s[|s| - 1] == '\n'
  }

  /** A store the script itself could have written. */
  predicate WellFormed(store: Store) {
    Terminated(Content(store))
  }

  /** An id that survives a write and a read unchanged: no whitespace at all,
      so neither a line break nor `strip()` can alter it. */
  predicate Storable(id: string) {
    NoSpace(id)
  }

  /** The lines of `s`, without their line breaks, as `readlines()` cuts them:
      a final piece without a line break is a line of its own, and an empty
      text has no lines. */
  function Lines(s: string): (r: seq<string>)
    ensures s == [] <==> r == []
    ensures forall l :: l in r ==> '\n' !in l
    decreases |s|
  {
    if s == [] then []
    else if s[0] == '\n' then [""] + Lines(s[1..])
    else
      var rest := Lines(s[1..]);
      if rest == [] then [[s[0]]] else [[s[0]] + rest[0]] + rest[1..]
  }

  /** The text appended for a batch of ids: each id followed by a newline. */
  function Encode(ids: seq<string>): (r: string)
    ensures Terminated(r)
    decreases |ids|
  {
    if ids == [] then "" else ids[0] + "\n" + Encode(ids[1..])
  }

  /** `load_seen_ids`: the stripped lines of the file, or nothing when there
      is no file. */
  function Load(store: Store): (r: set<string>)
    ensures forall x :: x in r ==> Trimmed(x)
    ensures forall l :: l in Lines(Content(store)) ==> Strip(l) in r
    ensures forall x :: x in r ==> exists l :: l in Lines(Content(store)) && Strip(l) == x
  {
    match store
    case None => {}
    case Some(text) => set l | l in Lines(text) :: Strip(l)
  }

  /** `save_seen_ids`: opens the file for appending, creating it if missing,
      and writes each id on a line of its own. Earlier content is kept as it
      was. */
  function Save(store: Store, ids: seq<string>): (r: Store)
    ensures r.Some?
    ensures Content(store) <= r.value
    ensures WellFormed(store) ==> WellFormed(r)
  {
    Some(Content(store) + Encode(ids))
  }

  /** Cutting lines distributes over a concatenation whose first part ends
      with a line break. */
  lemma {:induction false} LinesAppend(a: string, b: string)
    requires Terminated(a)
    ensures Lines(a + b) == Lines(a) + Lines(b)
    decreases |a|
  {
    if a != [] {
      var a' := a[1..];
      assert (a + b)[1..] == a' + b;
      LinesAppend(a', b);
      if a[0] != '\n' {
        assert a' != [];
      }
    } else {
      assert a + b == b;
    }
  }

  /** A line without a line break, once terminated, reads back as itself. */
  lemma {:induction false} LinesOfLine(x: string)
    requires '\n' !in x
    ensures Lines(x + "\n") == [x]
    decreases |x|
  {
    if x != [] {
      assert (x + "\n")[1..] == x[1..] + "\n";
      LinesOfLine(x[1..]);
      assert [x[0]] + x[1..] == x;
    }
  }

  /** Reading the appended text back yields exactly the ids written, in
      order. */
  lemma {:induction false} LinesEncode(ids: seq<string>)
    requires forall id :: id in ids ==> '\n' !in id
    ensures Lines(Encode(ids)) == ids
    decreases |ids|
  {
    if ids != [] {
      LinesAppend(ids[0] + "\n", Encode(ids[1..]));
      LinesOfLine(ids[0]);
      LinesEncode(ids[1..]);
    }
  }

  /** Load after save: appending a batch of ids to a well-formed store adds
      exactly those ids to what the next run loads. */
  lemma {:induction false} LoadAfterSave(store: Store, ids: seq<string>)
    requires WellFormed(store)
    requires forall id :: id in ids ==> Storable(id)
    ensures Load(Save(store, ids)) == Load(store) + (set id | id in ids)
  {
    var c := Content(store);
    forall id | id in ids
      ensures '\n' !in id && Strip(id) == id
    {
      assert IsSpace('\n');
    }
    LinesAppend(c, Encode(ids));
    LinesEncode(ids);
  }
}
