/** The game's Menu (src/menu.cc, src/menu.h): a list of options with a cursor that the
    arrow keys move, Enter selects and Escape jumps to a designated option. */
module Menus {
  import opened Wrappers

  /** A callback function pointer; None is NULL. What it does is outside the model. */
  type Callback = nat

  /** MenuOption: the label, the callback and the opaque argument passed to it. */
  datatype MenuOption = MenuOption(text: string, cb: Option<Callback>, data: int)

  /** The call select_option makes: cb applied to data. */
  datatype Call = Call(cb: Callback, data: int)

  /** 2^64: an int compared with a size_t is converted to size_t first. */
  const SizeModulus: int := 0x1_0000_0000_0000_0000

  predicate IsInt32(i: int) {
    -0x8000_0000 <= i < 0x8000_0000
  }

  /** The value of an int converted to size_t. */
  function AsSize(i: int): (r: int)
    requires IsInt32(i)
    ensures 0 <= r < SizeModulus
    ensures i < 0 ==> r >= SizeModulus - 0x8000_0000
  {
    if i < 0 then i + SizeModulus else i
  }

  function Min(a: int, b: int): int { if a <= b then a else b }
  function Max(a: int, b: int): int { if a <= b then b else a }

  /** The cursor after next_option, for n options: one step down, stopped at the last
      option. The comparison is unsigned, so a cursor that is still negative after the
      step also lands on the last option; with no options the last option is
      size_t(-1) converted back to int, that is -1. */
  function NextCursor(cur: int, n: nat): (r: int)
    requires IsInt32(cur) && cur < 0x7FFF_FFFF && n < 0x8000_0000
    ensures 0 <= cur + 1 ==> r == Min(cur + 1, n - 1)
    ensures cur + 1 < 0 ==> r == n - 1
  {
    var c := cur + 1;
    if AsSize(c) >= n then n - 1 else c
  }

  /** The cursor after prev_option: one step up, stopped at the first option. */
  function PrevCursor(cur: int): (r: int)
    requires IsInt32(cur) && -0x8000_0000 < cur
    ensures r == Max(cur - 1, 0)
  {
    var c := cur - 1;
    if c < 0 then 0 else c
  }

  /** What selecting option cur of opts does: it calls that option's callback on its
      data if the option exists and the callback is not NULL, and nothing otherwise. */
  function SelectedCall(opts: seq<MenuOption>, cur: int): (c: Option<Call>)
    ensures c.Some? <==> 0 <= cur < |opts| && opts[cur].cb.Some?
    ensures c.Some? ==> c.value == Call(opts[cur].cb.value, opts[cur].data)
  {
    if 0 <= cur < |opts| && opts[cur].cb.Some? then Some(Call(opts[cur].cb.value, opts[cur].data))
    else None
  }

  /** The guard of select_option as written: true when it returns without doing
      anything. */
  predicate SelectGuardSkips(cur: int, n: nat) {
    cur < 0 || cur > n
  }

  /** The guard as evidently intended: skip exactly the cursors that name no option. */
  predicate SelectGuardSkipsFixed(cur: int, n: nat) {
    cur < 0 || cur >= n
  }

  class Menu {
    var title: string
    var options: seq<MenuOption>
    var curoption: int
    var escoption: int

    /** The cursor names an option. */
    ghost predicate CursorValid()
      reads this
    {
      0 <= curoption < |options|
    }

    /** Menu(title). The source leaves curoption and escoption uninitialised: cur0 and
        esc0 stand for whatever they hold. */
    constructor (t: string, cur0: int, esc0: int)
      ensures title == t && options == [] && curoption == cur0 && escoption == esc0
    {
      title := t;
      options := [];
      curoption := cur0;
      escoption := esc0;
    }

    method SetEscOption(i: int)
      modifies this`escoption
      ensures escoption == i
    {
      escoption := i;
    }

    method Reset()
      modifies this`curoption
      ensures curoption == 0
      ensures |options| > 0 ==> CursorValid()
    {
      curoption := 0;
    }

    method NextOption()
      requires IsInt32(curoption) && curoption < 0x7FFF_FFFF && |options| < 0x8000_0000
      modifies this`curoption
      ensures curoption == NextCursor(old(curoption), |options|)
      ensures old(CursorValid()) ==> CursorValid()
    {
      curoption := curoption + 1;
      if AsSize(curoption) >= |options| {
        curoption := |options| - 1;
      }
    }

    method PrevOption()
      requires IsInt32(curoption) && -0x8000_0000 < curoption
      modifies this`curoption
      ensures curoption == PrevCursor(old(curoption))
      ensures old(CursorValid()) ==> CursorValid()
    {
      curoption := curoption - 1;
      if curoption < 0 {
        curoption := 0;
      }
    }

    /** select_option as written. Its guard lets curoption == |options| through, and the
        source then reads options[|options|], past the end; that case is excluded here. */
    method SelectOption() returns (call: Option<Call>)
      requires curoption != |options|
      ensures call == SelectedCall(options, curoption)
    {
      if SelectGuardSkips(curoption, |options|) {
        return None;
      }
      if options[curoption].cb.Some? {
        call := Some(Call(options[curoption].cb.value, options[curoption].data));
      } else {
        call := None;
      }
    }

    /** select_option with the bound check corrected: defined for every cursor. */
    method SelectOptionFixed() returns (call: Option<Call>)
      ensures call == SelectedCall(options, curoption)
    {
      if SelectGuardSkipsFixed(curoption, |options|) {
        return None;
      }
      if options[curoption].cb.Some? {
        call := Some(Call(options[curoption].cb.value, options[curoption].data));
      } else {
        call := None;
      }
    }

    /** activate_esc_option: jump to the escape option, then select it with
        select_option as written, so an escape option equal to the option count is
        excluded here just as it is there. */
    method ActivateEscOption() returns (call: Option<Call>)
      requires escoption != |options|
      modifies this`curoption
      ensures curoption == escoption
      ensures call == SelectedCall(options, escoption)
    {
      curoption := escoption;
      call := SelectOption();
    }

    /** add_option: append one option; the ones before it and the cursor stay. */
    method AddOption(text: string, cb: Option<Callback>, data: int)
      modifies this`options
      ensures options == old(options) + [MenuOption(text, cb, data)]
      ensures old(CursorValid()) ==> CursorValid()
    {
      options := options + [MenuOption(text, cb, data)];
    }
  }

  // ---------------------------------------------------------------------------
  // Lemmas

  /** With at least one option, next_option and prev_option keep a cursor that names
      an option naming one. */
  lemma CursorStaysOnAnOption(cur: int, n: nat)
    requires 0 <= cur < n < 0x8000_0000
    ensures 0 <= NextCursor(cur, n) < n
    ensures 0 <= PrevCursor(cur) < n
  {
  }

  /** Repeated next_option reaches the last option and stays there. */
  lemma {:induction false} NextCursorSaturates(cur: int, n: nat, k: nat)
    requires 0 <= cur < n < 0x8000_0000
    ensures Iterate(cur, n, k) == Min(cur + k, n - 1)
    decreases k
  {
    if k > 0 {
      NextCursorSaturates(cur, n, k - 1);
      CursorStaysOnAnOption(Iterate(cur, n, k - 1), n);
    }
  }

  /** The cursor after k calls of next_option. */
  function Iterate(cur: int, n: nat, k: nat): (r: int)
    requires 0 <= cur < n < 0x8000_0000
    ensures 0 <= r < n
  {
    if k == 0 then cur
    else
      var c := Iterate(cur, n, k - 1);
      NextCursor(c, n)
  }

  /** The off-by-one: the written guard lets the cursor one past the last option
      through, though no option sits there. */
  lemma SelectGuardAdmitsEnd(n: nat)
    ensures !SelectGuardSkips(n, n) && SelectGuardSkipsFixed(n, n)
  {
  }

  /** The corrected guard lets through exactly the cursors that name an option. */
  lemma SelectGuardFixedExact(cur: int, n: nat)
    ensures !SelectGuardSkipsFixed(cur, n) <==> 0 <= cur < n
    ensures !SelectGuardSkips(cur, n) <==> 0 <= cur <= n
  {
  }
}
