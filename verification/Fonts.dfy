/** Console fonts: a font loaded by the user is a counted block that any number of consoles share. */
module Fonts {

  /** Font memory is addressed by number; 0 is NULL.  Fonts built into the kernel are not blocks. */
  type Addr = nat

  datatype Display = Display(live: bool, fbInfo: nat, userfont: bool, fontdata: Addr, width: nat)

  /** A user font: REFCOUNT, the glyph bytes and FNTCHARCNT. */
  datatype Block = Block(refcount: int, glyphs: seq<bv8>, count: nat)

  /** Every block of `after` was in `before`, and is the same font. */
  ghost predicate SameData(before: map<Addr, Block>, after: map<Addr, Block>) {
    forall c :: c in after ==> c in before && after[c].glyphs == before[c].glyphs && after[c].count == before[c].count
  }

  datatype Outcome = Done | NoSuchConsole | NoMemory | BadFont | BadWidth

  predicate Uses(d: Display, b: Addr) {
    d.userfont && d.fontdata == b
  }

  /** How many consoles use block `b`. */
  function Users(s: seq<Display>, b: Addr): (n: nat)
    ensures n <= |s|
  {
    if s == [] then 0
    else Users(s[..|s| - 1], b) + if Uses(s[|s| - 1], b) then 1 else 0
  }

  lemma {:induction false} UsersUpdate(s: seq<Display>, i: nat, d: Display, b: Addr)
    requires i < |s|
    ensures Users(s[i := d], b) ==
            Users(s, b) - (if Uses(s[i], b) then 1 else 0) + (if Uses(d, b) then 1 else 0)
  {
    var n := |s| - 1;
    if i == n {
      assert s[i := d][..n] == s[..n];
    } else {
      assert s[i := d][..n] == s[..n][i := d];
      UsersUpdate(s[..n], i, d, b);
    }
  }

  lemma {:induction false} UsersPositive(s: seq<Display>, i: nat, b: Addr)
    requires i < |s| && Uses(s[i], b)
    ensures 0 < Users(s, b)
  {
    if i < |s| - 1 {
      UsersPositive(s[..|s| - 1], i, b);
    }
  }

  lemma {:induction false} SomeUser(s: seq<Display>, b: Addr) returns (i: nat)
    requires 0 < Users(s, b)
    ensures i < |s| && Uses(s[i], b)
  {
    if Uses(s[|s| - 1], b) {
      i := |s| - 1;
    } else {
      i := SomeUser(s[..|s| - 1], b);
    }
  }

  class FontTable {
    const disp: array<Display>        // fb_display
    const supported: seq<set<nat>>    // the font widths each console's driver can draw
    const builtin: set<Addr>          // fonts compiled into the kernel, and NULL
    var blocks: map<Addr, Block>

    /** Consoles without fonts, and no user font. */
    constructor (consoles: nat, supported: seq<set<nat>>, builtin: set<Addr>)
      requires 0 in builtin && |supported| == consoles
      ensures Valid() && OneCopy() && fresh(disp) && disp.Length == consoles && blocks == map[]
      ensures forall i :: 0 <= i < consoles ==> disp[i] == Display(false, 0, false, 0, 0)
      ensures this.supported == supported && this.builtin == builtin
    {
      this.supported, this.builtin, blocks := supported, builtin, map[];
      disp := new Display[consoles](_ => Display(false, 0, false, 0, 0));
    }

    /** REFCOUNT counts the consoles that use a block, and one more for `held`, a reference in the
        hands of the running operation.  Only `unused` may have no user. */
    ghost predicate Counts(held: Addr, unused: Addr)
      reads this, disp
    {
      && |supported| == disp.Length
      && 0 in builtin && blocks.Keys !! builtin && (held != 0 ==> held in blocks)
      && (forall b :: b in blocks ==>
            blocks[b].refcount == Users(disp[..], b) + (if b == held then 1 else 0))
      && (forall b :: b in blocks && b != unused ==> 0 < blocks[b].refcount)
      && (forall i :: 0 <= i < disp.Length ==> disp[i].fontdata in if disp[i].userfont then blocks.Keys else builtin)
    }

    ghost predicate Valid()
      reads this, disp
    {
      Counts(0, 0)
    }

    /** Consoles share a block exactly when their user fonts are the same font. */
    ghost predicate OneCopy()
      reads this, disp
    {
      forall i, j :: 0 <= i < disp.Length && 0 <= j < disp.Length && disp[i].userfont && disp[j].userfont
                     && disp[i].fontdata in blocks && disp[j].fontdata in blocks ==>
        (disp[i].fontdata == disp[j].fontdata <==>
         disp[i].width == disp[j].width && blocks[disp[i].fontdata].glyphs == blocks[disp[j].fontdata].glyphs)
    }

    /** The consoles that use block `data` are those that have its glyphs at this width. */
    ghost predicate Fits(data: Addr, width: nat)
      reads this, disp
    {
      data in blocks &&
      forall j :: 0 <= j < disp.Length && disp[j].userfont && disp[j].fontdata in blocks ==>
        (disp[j].fontdata == data <==>
         disp[j].width == width && blocks[disp[j].fontdata].glyphs == blocks[data].glyphs)
    }

    /** A block exists exactly while some console uses it. */
    lemma BlocksAreTheUsedOnes(b: Addr)
      requires Valid()
      ensures b in blocks <==> 0 < Users(disp[..], b)
    {
      if 0 < Users(disp[..], b) {
        var i := SomeUser(disp[..], b);
      }
    }

    /** Changing the font of one console moves one reference. */
    lemma UsersMoved(s: seq<Display>, unit: nat, d: Display)
      requires unit < |s|
      ensures forall c {:trigger Users(s, c)} ::
                Users(s[unit := d], c) ==
                Users(s, c) - (if Uses(s[unit], c) then 1 else 0) + (if Uses(d, c) then 1 else 0)
    {
      forall c {
        UsersUpdate(s, unit, d, c);
      }
    }

    /** if (--REFCOUNT(b) == 0) kfree(b). */
    method Put(b: Addr)
      requires b in blocks && Counts(b, 0)
      modifies this
      ensures Valid() && (old(OneCopy()) ==> OneCopy())
      ensures SameData(old(blocks), blocks)
    {
      hide Users;
      blocks := blocks[b := blocks[b].(refcount := blocks[b].refcount - 1)];
      if blocks[b].refcount == 0 {
        blocks := blocks - {b};
      }
      forall i | 0 <= i < disp.Length && disp[i].userfont ensures disp[i].fontdata in blocks {
        UsersPositive(disp[..], i, disp[i].fontdata);
      }
    }

    /** fbcon_free_font. */
    method FreeFont(unit: nat)
      requires Valid() && unit < disp.Length
      modifies this, disp
      ensures old(OneCopy()) ==> OneCopy()
      ensures Valid() && disp[..] == old(disp[..])[unit := old(disp[unit]).(fontdata := 0, userfont := false)]
      ensures SameData(old(blocks), blocks)
    {
      hide Users;
      var d := disp[unit];
      UsersMoved(disp[..], unit, d.(fontdata := 0, userfont := false));
      disp[unit] := d.(fontdata := 0, userfont := false);
      if d.userfont && d.fontdata != 0 {
        Put(d.fontdata);
      }
    }

    /** The console takes the new font, counted if it is a user font; its old user font, if any, is
        still counted. */
    method Attach(unit: nat, data: Addr, userfont: bool, width: nat) returns (old_data: Addr)
      requires unit < disp.Length
      requires Counts(0, data) && data in if userfont then blocks.Keys else builtin
      modifies this, disp
      ensures Counts(old_data, 0) && old_data == if old(disp[unit]).userfont then old(disp[unit]).fontdata else 0
      ensures old(OneCopy() && (userfont ==> Fits(data, width))) ==> OneCopy()
      ensures blocks.Keys == old(blocks).Keys
      ensures disp[..] == old(disp[..])[unit := old(disp[unit]).(fontdata := data, userfont := userfont,
                                                                 width := width)]
      ensures SameData(old(blocks), blocks)
    {
      hide Users;
      var d := disp[unit];
      old_data := 0;
      if d.userfont {
        old_data := d.fontdata;
      }
      var d' := d.(fontdata := data, userfont := userfont, width := width);
      UsersMoved(disp[..], unit, d');
      disp[unit] := d';
      if userfont {
        blocks := blocks[data := blocks[data].(refcount := blocks[data].refcount + 1)];
      }
    }

    /** fbcon_do_set_font.  A width the driver cannot draw is refused, and then the data is freed unless
        it is copied from another console or built in. */
    method DoSetFont(unit: nat, data: Addr, userfont: bool, width: nat, copying: bool) returns (r: Outcome)
      requires unit < disp.Length
      requires Counts(0, data) && data in if userfont then blocks.Keys else builtin
      modifies this, disp
      ensures r == if width in supported[unit] then Done else BadWidth
      ensures r == Done ==> Valid() && SameData(old(blocks), blocks) && (userfont ==> data in blocks)
      ensures r == BadWidth && userfont && !copying ==>
                (Valid() <==> forall i :: 0 <= i < disp.Length ==> !Uses(disp[i], data))
      ensures r == Done && old(OneCopy() && (userfont ==> Fits(data, width))) ==> OneCopy()
      ensures disp[..] == if r == BadWidth then old(disp[..])
                          else old(disp[..])[unit := old(disp[unit]).(fontdata := data, userfont := userfont,
                                                                      width := width)]
      ensures r == BadWidth ==> blocks == if userfont && !copying then old(blocks) - {data} else old(blocks)
    {
      hide Users;
      if width !in supported[unit] {
        if userfont && !copying {
          blocks := blocks - {data};
          assert Valid() ==> forall i :: 0 <= i < disp.Length ==> !Uses(disp[i], data);
        }
        return BadWidth;
      }
      var old_data := Attach(unit, data, userfont, width);
      if old_data != 0 {
        Put(old_data);
      }
      assert userfont ==> disp[unit].fontdata in blocks;
      return Done;
    }

    /** fbcon_copy_font. */
    method CopyFont(unit: nat, h: int) returns (r: Outcome)
      requires Valid() && unit < disp.Length
      modifies this, disp
      ensures Valid() && (old(OneCopy()) ==> OneCopy())
      ensures r == NoSuchConsole <==> h < 0 || h >= disp.Length || !old(disp[h]).live
      ensures r == BadWidth <==>
              && 0 <= h < disp.Length && old(disp[h]).live && old(disp[h]).fontdata != old(disp[unit]).fontdata
              && old(disp[h]).width !in supported[unit]
      ensures r != Done ==> disp[..] == old(disp[..]) && blocks == old(blocks)
      ensures r == Done ==>
                var d, od := old(disp[unit]), old(disp[h]);
                && disp[unit].fontdata == od.fontdata && disp[unit].userfont == od.userfont
                && disp[unit] == d.(fontdata := od.fontdata, userfont := od.userfont,
                                    width := if d.fontdata == od.fontdata then d.width else od.width)
      ensures forall i :: 0 <= i < disp.Length && i != unit ==> disp[i] == old(disp[i])
      ensures r == Done || r == NoSuchConsole || r == BadWidth
      ensures SameData(old(blocks), blocks)
    {
      hide Users;
      if h < 0 || h >= disp.Length || !disp[h].live {
        return NoSuchConsole;
      }
      if h == unit {
        return Done;
      }
      var od := disp[h];
      if od.fontdata == disp[unit].fontdata {
        return Done;
      }
      r := DoSetFont(unit, od.fontdata, od.userfont, od.width, true);
    }

    /** fbcon_set_font, down to the choice of the block: the new one, unless some console already has
        a user font with these glyphs and this width. */
    method ChooseBlock(width: nat, glyphs: seq<bv8>, count: nat, kmalloced: Addr) returns (new_data: Addr)
      requires Valid() && kmalloced !in blocks && kmalloced !in builtin
      modifies this
      ensures Counts(0, new_data) && new_data in blocks && blocks[new_data].glyphs == glyphs
      ensures old(OneCopy()) ==> OneCopy() && Fits(new_data, width)
      ensures blocks == if new_data == kmalloced then old(blocks)[kmalloced := Block(0, glyphs, count)] else old(blocks)
      ensures var i := FirstSame(disp[..], old(blocks), width, glyphs);
              new_data == if i == disp.Length then kmalloced else disp[i].fontdata
    {
      hide Users, FirstSame;
      new_data := kmalloced;
      blocks := blocks[new_data := Block(0, glyphs, count)];
      NoUser(new_data);
      NotSameAsNew(disp[..], old(blocks), blocks, width, glyphs, kmalloced);
      var i := FindSame(width, glyphs);
      if i < disp.Length {
        new_data := disp[i].fontdata;
        blocks := blocks - {kmalloced};
        assert blocks == old(blocks);
      }
    }

    /** fbcon_set_font on an acceptable glyph set of `count` characters; kmalloc gives 0 if it fails.  The
        count of a font that is shared is not compared, so the console gets another count than the one
        asked for exactly when the first console with the same bytes and width has it.  A width that
        cannot be drawn is refused only after that search, so exactly when there is such a console its
        block is freed while it is in use. */
    method SetFont(unit: nat, width: nat, glyphs: seq<bv8>, count: nat, kmalloced: Addr) returns (r: Outcome)
      requires Valid() && unit < disp.Length
      requires kmalloced !in blocks && (kmalloced != 0 ==> kmalloced !in builtin)
      modifies this, disp
      ensures r == if kmalloced == 0 then NoMemory else if width in supported[unit] then Done else BadWidth
      ensures r != Done ==> disp[..] == old(disp[..])
      ensures r == NoMemory ==> blocks == old(blocks)
      ensures var i := FirstSame(old(disp[..]), old(blocks), width, glyphs);
              && (Valid() <==> r != BadWidth || i == disp.Length)
              && (r == BadWidth ==>
                    blocks == if i == disp.Length then old(blocks) else old(blocks) - {old(disp[i]).fontdata})
      ensures r != BadWidth && old(OneCopy()) ==> OneCopy()
      ensures r == Done ==> disp[unit].userfont && disp[unit].width == width && disp[unit].fontdata in blocks
                            && blocks[disp[unit].fontdata].glyphs == glyphs
      ensures r == Done ==> SameData(old(blocks)[kmalloced := Block(0, glyphs, count)], blocks)
      ensures r == Done ==>
                var i := FirstSame(old(disp[..]), old(blocks), width, glyphs);
                && disp[unit].fontdata == (if i == disp.Length then kmalloced else old(disp[i]).fontdata)
                && (blocks[disp[unit].fontdata].count == count <==>
                      i == disp.Length || old(blocks[disp[i].fontdata]).count == count)
      ensures forall i :: 0 <= i < disp.Length && i != unit ==> disp[i] == old(disp[i])
    {
      hide Users, FirstSame, Counts;
      if kmalloced == 0 {
        return NoMemory;
      }
      NotUsedYet(kmalloced);
      var new_data := ChooseBlock(width, glyphs, count, kmalloced);
      ghost var i := FirstSame(disp[..], old(blocks), width, glyphs);
      assert i < disp.Length ==> Uses(disp[i], new_data);
      r := DoSetFont(unit, new_data, true, width, false);
    }

    /** The search of fbcon_set_font for a console that has the same font already. */
    method FindSame(width: nat, glyphs: seq<bv8>) returns (i: nat)
      ensures i == FirstSame(disp[..], blocks, width, glyphs)
    {
      i := 0;
      while i < disp.Length && !SameFont(disp[i], blocks, width, glyphs)
        invariant i <= disp.Length
        invariant FirstSame(disp[..], blocks, width, glyphs) == i + FirstSame(disp[i..], blocks, width, glyphs)
      {
        assert disp[i..][1..] == disp[i + 1..];
        i := i + 1;
      }
    }

    /** fbcon_set_def_font with the kernel font it found (0 if there is none of that name). */
    method SetDefFont(unit: nat, f: Addr, width: nat) returns (r: Outcome)
      requires Valid() && unit < disp.Length && f in builtin
      modifies this, disp
      ensures Valid() && (old(OneCopy()) ==> OneCopy())
      ensures r == if f == 0 then BadFont else if width in supported[unit] then Done else BadWidth
      ensures r == Done ==> SameData(old(blocks), blocks)
      ensures r != Done ==> blocks == old(blocks)
      ensures disp[..] == if r != Done then old(disp[..])
                          else old(disp[..])[unit := old(disp[unit]).(fontdata := f, userfont := false, width := width)]
    {
      if f == 0 {
        return BadFont;
      }
      r := DoSetFont(unit, f, false, width, false);
    }

    /** The font part of fbcon_setup: the console gives up its font and shares the font of another
        console on the same frame buffer, or takes the default font. */
    method SetupFont(con: nat, dflt: Addr, dfltWidth: nat) returns (i: nat)
      requires Valid() && con < disp.Length && dflt in builtin && dflt != 0
      modifies this, disp
      ensures Valid() && (old(OneCopy()) ==> OneCopy())
      ensures disp[con].fontdata != 0
      ensures forall j :: 0 <= j < disp.Length && j != con ==> disp[j] == old(disp[j])
      ensures i <= disp.Length && forall j :: 0 <= j < disp.Length ==>
                var d := old(disp[j]);
                var gives := j != con && d.live && d.fontdata != 0 && d.fbInfo == old(disp[con]).fbInfo;
                if j < i then !gives else j == i ==> gives
      ensures disp[con] ==
              if i < disp.Length && old(disp[i]).width in supported[con] then
                var q := old(disp[i]);
                old(disp[con]).(fontdata := q.fontdata, userfont := q.userfont, width := q.width)
              else
                old(disp[con]).(fontdata := dflt, userfont := false, width := dfltWidth)
    {
      SupportedLength();
      hide Counts, OneCopy, Donor;
      ghost var s := disp[..];
      i := FindDonor(con);
      FirstDonorIs(s, con, i);
      FreeFont(con);
      assert disp[..] == s[con := s[con].(fontdata := 0, userfont := false)];
      TakeFont(con, i, dflt, dfltWidth);
      assert disp[..][con] == disp[con];
    }

    /** The console, which has no font, shares that of console `i` if it can draw it. */
    method TakeFont(con: nat, i: nat, dflt: Addr, dfltWidth: nat)
      requires Valid() && con < disp.Length && dflt in builtin && !disp[con].userfont && disp[con].fontdata == 0
      requires i < disp.Length ==> i != con && disp[i].fontdata != 0
      modifies this, disp
      ensures Valid() && (old(OneCopy()) ==> OneCopy())
      ensures disp[..] == old(disp[..])[con :=
                if i < disp.Length && old(disp[i]).width in supported[con] then
                  var q := old(disp[i]);
                  old(disp[con]).(fontdata := q.fontdata, userfont := q.userfont, width := q.width)
                else
                  old(disp[con]).(fontdata := dflt, width := dfltWidth)]
    {
      SupportedLength();
      hide Counts, OneCopy;
      if i < disp.Length && disp[i].width in supported[con] {
        ShareFont(con, i);
      }
      assert disp[..][con] == disp[con];
      if disp[con].fontdata == 0 {
        TakeDefault(con, dflt, dfltWidth);
      }
    }

    /** The console, which has no user font, takes and counts the font of console `i`. */
    method ShareFont(con: nat, i: nat)
      requires Valid() && con < disp.Length && i < disp.Length && !disp[con].userfont
      modifies this, disp
      ensures Valid() && (old(OneCopy()) ==> OneCopy())
      ensures var q := old(disp[i]);
              disp[..] == old(disp[..])[con := old(disp[con]).(fontdata := q.fontdata, userfont := q.userfont,
                                                               width := q.width)]
    {
      hide Users;
      var none := Attach(con, disp[i].fontdata, disp[i].userfont, disp[i].width);
    }

    lemma SupportedLength()
      requires Valid()
      ensures |supported| == disp.Length
    {
    }

    /** The search of fbcon_setup for a console to share the font of. */
    method FindDonor(con: nat) returns (i: nat)
      requires con < disp.Length
      ensures FirstDonor(disp[..], con, i)
    {
      i := 0;
      while i < disp.Length && !(i != con && disp[i].fbInfo == disp[con].fbInfo && disp[i].live
                                 && disp[i].fontdata != 0)
        invariant i <= disp.Length && forall j: nat :: j < i ==> !Donor(disp[..], con, j)
      {
        i := i + 1;
      }
    }

    method TakeDefault(con: nat, dflt: Addr, dfltWidth: nat)
      requires Valid() && con < disp.Length && dflt in builtin && !disp[con].userfont
      modifies disp
      ensures Valid() && (old(OneCopy()) ==> OneCopy())
      ensures disp[..] == old(disp[..])[con := old(disp[con]).(width := dfltWidth, fontdata := dflt)]
    {
      var d := disp[con].(width := dfltWidth, fontdata := dflt);
      UsersMoved(disp[..], con, d);
      disp[con] := d;
    }

    lemma NotUsedYet(b: Addr)
      requires Valid() && b !in blocks
      ensures forall i :: 0 <= i < disp.Length ==> !Uses(disp[i], b)
    {
    }

    lemma NoUser(b: Addr)
      requires forall i :: 0 <= i < disp.Length ==> !Uses(disp[i], b)
      ensures Users(disp[..], b) == 0
    {
      if 0 < Users(disp[..], b) {
        var i := SomeUser(disp[..], b);
      }
    }
  }

  lemma FirstDonorIs(s: seq<Display>, con: nat, i: nat)
    requires con < |s| && FirstDonor(s, con, i)
    ensures i <= |s| && forall j :: 0 <= j < |s| ==>
              var gives := j != con && s[j].live && s[j].fontdata != 0 && s[j].fbInfo == s[con].fbInfo;
              if j < i then !gives else j == i ==> gives
  {
    forall j: nat | j < |s|
      ensures var gives := j != con && s[j].live && s[j].fontdata != 0 && s[j].fbInfo == s[con].fbInfo;
              if j < i then !gives else j == i ==> gives
    {
      assert j < i ==> !Donor(s, con, j);
    }
  }

  /** The first console with that font, or `|s|` if there is none. */
  function FirstSame(s: seq<Display>, blocks: map<Addr, Block>, width: nat, glyphs: seq<bv8>): (i: nat)
    ensures i <= |s| && (i < |s| ==> SameFont(s[i], blocks, width, glyphs))
    ensures forall k :: 0 <= k < i ==> !SameFont(s[k], blocks, width, glyphs)
  {
    if s == [] || SameFont(s[0], blocks, width, glyphs) then 0
    else 1 + FirstSame(s[1..], blocks, width, glyphs)
  }

  /** A block that no console uses changes nothing of that. */
  lemma {:induction false} NotSameAsNew(s: seq<Display>, before: map<Addr, Block>, after: map<Addr, Block>,
                                        width: nat, glyphs: seq<bv8>, data: Addr)
    requires data !in before && after.Keys == before.Keys + {data}
    requires forall c :: c in before ==> after[c] == before[c]
    requires forall i :: 0 <= i < |s| && s[i].userfont ==> s[i].fontdata in before
    ensures FirstSame(s, after, width, glyphs) == FirstSame(s, before, width, glyphs)
  {
    if s != [] {
      assert SameFont(s[0], after, width, glyphs) == SameFont(s[0], before, width, glyphs);
      NotSameAsNew(s[1..], before, after, width, glyphs, data);
    }
  }

  /** The same 4096 bytes as 512 characters of 8 rows or as 256 characters of 16 are the same font to
      fbcon_set_font. */
  method CountLost() returns (t: FontTable)
    ensures fresh(t) && t.Valid() && t.disp.Length == 2
    ensures t.disp[1].userfont && t.disp[1].fontdata in t.blocks && t.blocks[t.disp[1].fontdata].count == 256
  {
    var glyphs := seq<bv8>(4096, _ => 0);
    t := new FontTable(2, [{8}, {8}], {0});
    var r := t.SetFont(0, 8, glyphs, 256, 1);
    t.NoUser(2);
    t.BlocksAreTheUsedOnes(2);
    assert t.disp[..][0] == t.disp[0] && SameFont(t.disp[..][0], t.blocks, 8, glyphs);
    r := t.SetFont(1, 8, glyphs, 512, 2);
  }

  /** A font in use on a console that can draw it is freed by a console that cannot. */
  method FreedInUse() returns (t: FontTable)
    ensures fresh(t) && t.disp.Length == 2 && t.disp[0].userfont && t.disp[0].fontdata !in t.blocks
  {
    var glyphs := seq<bv8>(4096, _ => 0);
    t := new FontTable(2, [{8}, {16}], {0});
    var r := t.SetFont(0, 8, glyphs, 256, 1);
    t.NoUser(2);
    t.BlocksAreTheUsedOnes(2);
    assert t.disp[..][0] == t.disp[0] && SameFont(t.disp[..][0], t.blocks, 8, glyphs);
    r := t.SetFont(1, 8, glyphs, 256, 2);
  }

  /** Another console on the same frame buffer that has a font. */
  predicate Donor(s: seq<Display>, con: nat, i: nat)
    requires con < |s| && i < |s|
  {
    i != con && s[i].fbInfo == s[con].fbInfo && s[i].live && s[i].fontdata != 0
  }

  /** `i` is the first such console, or `|s|` if there is none. */
  ghost predicate FirstDonor(s: seq<Display>, con: nat, i: nat)
    requires con < |s|
  {
    i <= |s| && (forall j: nat :: j < i ==> !Donor(s, con, j)) && (i < |s| ==> Donor(s, con, i))
  }

  /** The test by which fbcon_set_font recognises a font that some console has already.  (Its FNTSUM
      comparison follows from the comparison of the glyph bytes.) */
  predicate SameFont(d: Display, blocks: map<Addr, Block>, width: nat, glyphs: seq<bv8>) {
    d.userfont && d.fontdata != 0 && d.fontdata in blocks && |blocks[d.fontdata].glyphs| == |glyphs|
    && d.width == width && blocks[d.fontdata].glyphs == glyphs
  }
}
