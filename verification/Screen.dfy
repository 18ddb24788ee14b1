/** The two lines of the approval screen, as C strings in fixed buffers. */
module Screen {
  import opened Bytes
  import opened Storage
  import opened App

  const LINE_SIZE: nat := 32

  /** What a C string in a buffer reads as: everything before the first NUL. */
  function CString(s: seq<char>): string {
    if s == [] || s[0] == '\0' then [] else [s[0]] + CString(s[1..])
  }

  predicate NoNul(text: string) {
    forall i | 0 <= i < |text| :: text[i] != '\0'
  }

  lemma {:induction false} CStringReads(s: seq<char>, text: string)
    requires |text| < |s| && s[..|text|] == text && s[|text|] == '\0' && NoNul(text)
    ensures CString(s) == text
  {
    if text != [] {
      assert s[1..][..|text| - 1] == s[..|text|][1..] == text[1..];
      CStringReads(s[1..], text[1..]);
    }
  }

  function Digit(slot: nat): char
    requires slot < SLOT_COUNT
  {
    ('0' as int + slot) as char
  }

  function Text(name: seq<byte>): (r: string)
    ensures |r| == |name|
  {
    seq(|name|, i requires 0 <= i < |name| => name[i] as char)
  }

  /** An approval the application may display. */
  predicate Showable(p: Pending) {
    match p
    case Idle => false
    case Overwrite(slot, _) => slot < SLOT_COUNT
    case Release(slot, _) => slot < SLOT_COUNT
    case DeriveName(name, _) => |name| <= MAX_NAME_SIZE && ValidName(name)
    case EraseAll => true
  }

  function Line1(p: Pending): string
    requires Showable(p)
  {
    match p
    case Overwrite(slot, _) => "Slot #" + [Digit(slot)] + " already set."
    case Release(_, _) => "Database open slot"
    case DeriveName(_, _) => "Database open name"
    case EraseAll => "Erase all slots?"
  }

  function Line2(p: Pending): string
    requires Showable(p)
  {
    match p
    case Overwrite(_, _) => "Erase?"
    case Release(slot, _) => "Slot #" + [Digit(slot)]
    case DeriveName(name, _) => "'" + Text(name) + "'"
    case EraseAll => "They will be erased forever!"
  }

  /** The same operation on the same slot or name. */
  predicate SameOperation(p: Pending, q: Pending) {
    match (p, q)
    case (Overwrite(s, _), Overwrite(t, _)) => s == t
    case (Release(s, _), Release(t, _)) => s == t
    case (DeriveName(m, _), DeriveName(n, _)) => m == n
    case (EraseAll, EraseAll) => true
    case _ => false
  }

  lemma TextDetermines(m: seq<byte>, n: seq<byte>)
    requires Text(m) == Text(n)
    ensures m == n
  {
    forall i | 0 <= i < |m|
      ensures m[i] == n[i]
    {
      assert Text(m)[i] == Text(n)[i];
    }
  }

  lemma OverwriteScreens(p: Pending, q: Pending)
    requires p.Overwrite? && Showable(p) && Showable(q)
    ensures Line1(p) == Line1(q) <==> q.Overwrite? && p.slot == q.slot
  {
    assert Line1(p)[0] == 'S' && Line1(p)[6] == Digit(p.slot);
    if q.Overwrite? {
      assert Line1(q)[6] == Digit(q.slot);
    } else {
      assert Line1(q)[0] != 'S';
    }
  }

  lemma ReleaseScreens(p: Pending, q: Pending)
    requires p.Release? && q.Release? && Showable(p) && Showable(q)
    ensures Line2(p) == Line2(q) <==> p.slot == q.slot
  {
    assert Line2(p)[6] == Digit(p.slot) && Line2(q)[6] == Digit(q.slot);
  }

  lemma NameScreens(p: Pending, q: Pending)
    requires p.DeriveName? && q.DeriveName? && Showable(p) && Showable(q)
    ensures Line2(p) == Line2(q) <==> p.name == q.name
  {
    if Line2(p) == Line2(q) {
      assert Line2(p)[1..|Line2(p)| - 1] == Text(p.name) && Line2(q)[1..|Line2(q)| - 1] == Text(q.name);
      TextDetermines(p.name, q.name);
    }
  }

  /** Two approvals show the same screen exactly when they are the same operation on the same
      slot or name; the key or public key involved is not shown. */
  lemma ScreensIdentify(p: Pending, q: Pending)
    requires Showable(p) && Showable(q)
    ensures Line1(p) == Line1(q) && Line2(p) == Line2(q) <==> SameOperation(p, q)
  {
    if p.Overwrite? {
      OverwriteScreens(p, q);
    } else if q.Overwrite? {
      OverwriteScreens(q, p);
    } else if p.Release? && q.Release? {
      ReleaseScreens(p, q);
    } else if p.DeriveName? && q.DeriveName? {
      NameScreens(p, q);
    } else if !SameOperation(p, q) {
      assert Line1(p)[|Line1(p)| - 4..] != Line1(q)[|Line1(q)| - 4..];
    }
  }

  /** What the user reads names the operation, and its slot as a decimal digit or its name between quotes. */
  lemma ScreenTells(p: Pending)
    requires Showable(p)
    ensures p.Overwrite? ==>
              && |Line1(p)| == 20 && Line1(p)[..6] == "Slot #" && Line1(p)[7..] == " already set."
              && Line1(p)[6] as int - '0' as int == p.slot && Line2(p) == "Erase?"
    ensures p.Release? ==>
              && Line1(p) == "Database open slot" && |Line2(p)| == 7 && Line2(p)[..6] == "Slot #"
              && Line2(p)[6] as int - '0' as int == p.slot
    ensures p.DeriveName? ==>
              && Line1(p) == "Database open name" && |Line2(p)| == |p.name| + 2
              && Line2(p)[0] == Line2(p)[|p.name| + 1] == '\''
              && forall i | 0 <= i < |p.name| :: Line2(p)[i + 1] as int == p.name[i]
    ensures p.EraseAll? ==> Line1(p) == "Erase all slots?" && Line2(p) == "They will be erased forever!"
  {
  }

  lemma NoNulConcat(a: string, b: string)
    requires NoNul(a) && NoNul(b)
    ensures NoNul(a + b)
  {
  }

  lemma FixedTexts()
    ensures NoNul("Slot #") && NoNul(" already set.") && NoNul("Erase?") && NoNul("'")
    ensures NoNul("Database open slot") && NoNul("Database open name")
    ensures NoNul("Erase all slots?") && NoNul("They will be erased forever!")
  {
  }

  lemma NameText(name: seq<byte>)
    requires ValidName(name)
    ensures NoNul(Text(name))
  {
    forall i | 0 <= i < |name|
      ensures Text(name)[i] != '\0'
    {
      assert name[i] >= 0x20;
    }
  }

  lemma DigitText(slot: nat)
    requires slot < SLOT_COUNT
    ensures NoNul([Digit(slot)])
  {
  }

  /** Both lines fit their buffers with the terminator, and hold no NUL themselves. */
  lemma LinesFit(p: Pending)
    requires Showable(p)
    ensures |Line1(p)| < LINE_SIZE && |Line2(p)| < LINE_SIZE
    ensures NoNul(Line1(p)) && NoNul(Line2(p))
  {
    FixedTexts();
    hide NoNul, Digit, ValidName, Text;
    match p
    case Overwrite(slot, _) =>
      DigitText(slot);
      NoNulConcat("Slot #", [Digit(slot)]);
      NoNulConcat("Slot #" + [Digit(slot)], " already set.");
    case Release(slot, _) =>
      DigitText(slot);
      NoNulConcat("Slot #", [Digit(slot)]);
    case DeriveName(name, _) =>
      NameText(name);
      NoNulConcat("'", Text(name));
      NoNulConcat("'" + Text(name), "'");
    case EraseAll =>
  }
}
