/** Emacs-style registers: named snapshots of text, captured from the single
    selection and inserted back in its place. */
module Registers {
  import opened Regions

  /** The register store. The source keeps its dictionary on the class, so
      all instances share it; the model has that one map in the single
      instance the plugin creates at load time and passes it to the handlers. */
  class RegisterStore {
    var registers: map<string, string>

    constructor ()
      ensures registers == map[]
      ensures forall key :: !Contains(key) && Get(key) == ""
    {
      registers := map[];
    }

    /** True exactly when some earlier Store used this key; a key that is
        not contained reads as the empty text. */
    predicate Contains(key: string)
      reads this
      ensures !Contains(key) ==> Get(key) == ""
      ensures Contains(key) ==> Get(key) == registers[key]
    {
      key in registers
    }

    /** The stored text; a key never stored reads as the empty text, not as
        an error. */
    function Get(key: string): (r: string)
      reads this
      ensures key in registers ==> r == registers[key]
      ensures key !in registers ==> r == ""
    {
      if key !in registers then "" else registers[key]
    }

    /** Insert or overwrite: afterwards the key reads back `val`, every other
        key reads as before, so the last write to a key wins. */
    method Store(key: string, val: string)
      modifies this
      ensures registers == old(registers)[key := val]
      ensures Contains(key) && Get(key) == val
      ensures forall k :: k != key ==> Contains(k) == old(Contains(k)) && Get(k) == old(Get(k))
    {
      registers := registers[key := val];
    }
  }

  /** The body of the capture prompt's change handler, given the typed key.
      `prompted` says whether the prompt has been opened (the source returns
      at once otherwise). With exactly one selection the selected text is
      stored under `key` and the host is asked to cancel the mark, which the
      result reports; otherwise nothing is stored. */
  method Capture(store: RegisterStore, prompted: bool, key: string, buf: string, sels: seq<Region>)
    returns (cancelMark: bool)
    requires InBuffer(sels, |buf|)
    modifies store
    ensures cancelMark <==> prompted && |sels| == 1
    ensures cancelMark ==>
      store.registers == old(store.registers)[key := buf[sels[0].Begin()..sels[0].End()]]
    ensures !cancelMark ==> store.registers == old(store.registers)
  {
    if !prompted {
      return false;
    }
    if |sels| != 1 {
      return false;
    }
    store.Store(key, buf[sels[0].Begin()..sels[0].End()]);
    cancelMark := true;
  }

  /** The body of the insert prompt's handler, given the typed key. With
      exactly one selection and a stored key, the selected text is replaced
      by the register's text and the selection becomes a cursor just after
      it, measured from the start the selection had before the replacement.
      In every other case buffer and selection are left as they are. */
  method InsertFromRegister(store: RegisterStore, prompted: bool, key: string, buf: string, sels: seq<Region>)
    returns (buf': string, sels': seq<Region>)
    requires InBuffer(sels, |buf|)
    ensures InBuffer(sels', |buf'|)
    ensures !(prompted && |sels| == 1 && store.Contains(key)) ==> buf' == buf && sels' == sels
    ensures prompted && |sels| == 1 && store.Contains(key) ==>
      var b, e, cnt := sels[0].Begin(), sels[0].End(), store.Get(key);
      && |buf'| == |buf| - (e - b) + |cnt|
      && buf'[..b] == buf[..b]
      && buf'[b..b + |cnt|] == cnt
      && buf'[b + |cnt|..] == buf[e..]
      && sels' == [Cursor(b + |cnt|)]
  {
    buf', sels' := buf, sels;
    if !prompted {
      return;
    }
    if |sels| != 1 {
      return;
    }
    var begin := sels[0].Begin();
    if store.Contains(key) {
      var cnt := store.Get(key);
      buf' := buf[..begin] + cnt + buf[sels[0].End()..];
      sels' := [Cursor(begin + |cnt|)];
    }
  }

  /** Capturing a selection into a register and inserting that register over
      the same selection gives back the buffer unchanged, with the cursor at
      the end of the old selection. */
  method CaptureThenInsertRestores(store: RegisterStore, key: string, buf: string, sel: Region)
    returns (buf': string, sels': seq<Region>)
    requires sel.End() <= |buf|
    modifies store
    ensures buf' == buf
    ensures sels' == [Cursor(sel.End())]
    ensures store.Get(key) == buf[sel.Begin()..sel.End()]
  {
    var _ := Capture(store, true, key, buf, [sel]);
    buf', sels' := InsertFromRegister(store, true, key, buf, [sel]);
    assert buf' == buf[..sel.Begin()] + buf[sel.Begin()..sel.End()] + buf[sel.End()..];
  }
}
