/** What second/cfg.c makes of the entries it reads: the global options, the list of images, and which images
    are obsolete.  `curr_table` is the number of an image, or OPTIONS for the global options.
 */
module ConfigImages {
  import opened Common
  import opened ConfigTokens

  const OPTIONS := -1
  const BAR: code := 0x7c
  const OPENING_BRACKET: code := 0x5b
  const CLOSING_BRACKET: code := 0x5d
  const SLASH: code := 0x2f

  datatype Kind = Strg | Flag

  /** What the data of an option points to. */
  datatype Data = FlagSet | Is(s: text)

  datatype Slot = Slot(kind: Kind, name: text, data: Option<Data>)

  type Table = seq<Slot>

  datatype Image = Image(table: Table, obsolete: bool)

  datatype Config = Config(options: Table, images: seq<Image>, current: int)

  // ---------- Names ----------

  function Ascii(s: string): (t: text)
    ensures |t| == |s| && forall i :: 0 <= i < |s| && s[i] < '\U{0080}' ==> t[i] == s[i] as int
  {
    seq(|s|, i requires 0 <= i < |s| => if s[i] < '\U{0080}' then s[i] as int else NUL)
  }

  function Lower(c: code): code {
    if 0x41 <= c <= 0x5a then c + 0x20 else c
  }

  /** strcasecmp finds no difference. */
  predicate SameName(a: text, b: text) {
    |a| == |b| && forall i :: 0 <= i < |a| ==> Lower(a[i]) == Lower(b[i])
  }

  /** Character by character, they are the same, or the same letter. */
  lemma CaseIgnored(a: text, b: text)
    ensures SameName(a, b) <==>
      |a| == |b| && forall i :: 0 <= i < |a| ==>
        || a[i] == b[i]
        || ('A' as int <= a[i] <= 'Z' as int && b[i] == a[i] + ('a' as int - 'A' as int))
        || ('A' as int <= b[i] <= 'Z' as int && a[i] == b[i] + ('a' as int - 'A' as int))
  {
  }

  function Label(): text { Ascii("label") }

  function ImageName(): text { Ascii("image") }

  function Alias(): text { Ascii("alias") }

  // ---------- Tables ----------

  function S(name: string): Slot { Slot(Strg, Ascii(name), None) }

  function F(name: string): Slot { Slot(Flag, Ascii(name), None) }

  function OptionTable(): Table {
    [S("device"), S("partition"), S("default"), S("timeout"), S("password"), F("restricted"), S("message"),
     S("root"), S("ramdisk"), F("read-only"), F("read-write"), S("append"), S("initrd"), F("initrd-prompt"),
     S("initrd-size"), F("pause-after"), S("pause-message"), S("init-code"), S("init-message"), S("fgcolor"),
     S("bgcolor"), S("ptypewarning")]
  }

  function ImageTable(): Table {
    [S("image"), S("label"), S("alias"), F("single-key"), F("restricted"), S("device"), S("partition"),
     S("root"), S("ramdisk"), F("read-only"), F("read-write"), S("append"), S("literal"), S("initrd"),
     F("initrd-prompt"), S("initrd-size"), F("pause-after"), S("pause-message"), F("novideo")]
  }

  /** The number of the first option of that name from `i` on. */
  function FindFrom(t: Table, item: text, i: nat): (r: nat)
    requires i <= |t|
    ensures i <= r <= |t| && (r < |t| ==> SameName(t[r].name, item))
    ensures forall k :: i <= k < r ==> !SameName(t[k].name, item)
    decreases |t| - i
  {
    if i == |t| || SameName(t[i].name, item) then i else FindFrom(t, item, i + 1)
  }

  function Find(t: Table, item: text): (r: nat)
    ensures r <= |t|
  {
    FindFrom(t, item, 0)
  }

  /** `cfg_get_strg_i` */
  function Get(t: Table, item: text): Option<Data> {
    var i := Find(t, item);
    if i == |t| then None else t[i].data
  }

  /** The same options, whatever they are set to; strings are set to strings. */
  predicate Shaped(t: Table, model: Table) {
    && |t| == |model|
    && (forall i :: 0 <= i < |t| ==> t[i].name == model[i].name && t[i].kind == model[i].kind)
    && (forall i :: 0 <= i < |t| && t[i].kind == Strg && t[i].data.Some? ==> t[i].data.value.Is?)
  }

  /** What an image goes by when another one takes a label. */
  function Called(t: Table): Option<Data> {
    if Get(t, Label()).Some? then Get(t, Label()) else Get(t, ImageName())
  }

  predicate IsCalled(t: Table, called: text) {
    match Called(t)
    case Some(Is(s)) => SameName(s, called)
    case _ => false
  }

  // ---------- Image headers ----------

  predicate StartsImage(item: text) {
    |item| >= 5 && SameName(item[..5], ImageName())
  }

  predicate Matches(name: text, compatible: seq<text>) {
    exists i :: 0 <= i < |compatible| && SameName(compatible[i], name)
  }

  // Where the first bar from `i` on is.
  function NextBar(s: text, i: nat): (r: nat)
    requires i <= |s|
    ensures i <= r <= |s|
    decreases |s| - i
  {
    if i == |s| || s[i] == BAR then i else NextBar(s, i + 1)
  }

  /** One of the names between bars matches. */
  predicate AnyMatches(names: text, compatible: seq<text>)
    decreases |names|
  {
    var q := NextBar(names, 0);
    Matches(names[..q], compatible) || (q < |names| && AnyMatches(names[q + 1..], compatible))
  }

  // Names with bars in between.
  function Barred(names: seq<text>): text
    requires names != []
  {
    if |names| == 1 then names[0] else names[0] + [BAR] + Barred(names[1..])
  }

  lemma {:induction false} BarredMatches(names: seq<text>, compatible: seq<text>)
    requires names != [] && forall i :: 0 <= i < |names| ==> BAR !in names[i]
    ensures AnyMatches(Barred(names), compatible) <==> exists i :: 0 <= i < |names| && Matches(names[i], compatible)
  {
    hide Matches;
    var s, q := Barred(names), NextBar(Barred(names), 0);
    FirstBar(names[0], s, 0);
    assert s[..q] == names[0];
    if |names| > 1 {
      BarredMatches(names[1..], compatible);
      assert s[q + 1..] == Barred(names[1..]);
      assert forall i :: 1 <= i < |names| ==> names[i] == names[1..][i - 1];
      assert forall i :: 0 <= i < |names| - 1 ==> names[1..][i] == names[i + 1];
    }
  }

  lemma {:induction false} FirstBar(name: text, s: text, i: nat)
    requires BAR !in name && i <= |name| <= |s| && s[..|name|] == name
    requires |s| > |name| ==> s[|name|] == BAR
    ensures NextBar(s, i) == |name|
    decreases |name| - i
  {
    if i < |name| {
      assert s[i] == name[i];
      FirstBar(name, s, i + 1);
    }
  }

  /** A header with names in brackets is for other machines exactly when no name is compatible with this one. */
  lemma BracketedHeader(names: seq<text>, compatible: seq<text>)
    requires names != [] && forall i :: 0 <= i < |names| ==> BAR !in names[i]
    ensures HeaderOf(ImageName() + [OPENING_BRACKET] + Barred(names) + [CLOSING_BRACKET], compatible)
         == Starts(!exists i :: 0 <= i < |names| && Matches(names[i], compatible))
  {
    hide Matches, Barred, AnyMatches, Ascii;
    BarredMatches(names, compatible);
    HeaderParts(ImageName(), Barred(names));
  }

  lemma HeaderParts(front: text, names: text)
    requires |front| == 5
    ensures var item := front + [OPENING_BRACKET] + names + [CLOSING_BRACKET];
      && |item| > 5 && item[..5] == front && item[6..|item| - 1] == names
      && item[5] == OPENING_BRACKET && item[|item| - 1] == CLOSING_BRACKET
  {
  }

  datatype Header = NoHeader | Starts(ignored: bool)

  /** Whether an item starts an image, and whether the image is for other machines only. */
  function HeaderOf(item: text, compatible: seq<text>): (r: Header)
    ensures r.Starts? ==> |item| >= 5 && SameName(item[..5], ImageName())
  {
    if !StartsImage(item) then NoHeader
    else if |item| == 5 then Starts(false)
    else if item[5] == OPENING_BRACKET && item[|item| - 1] == CLOSING_BRACKET then
      Starts(!AnyMatches(item[6..|item| - 1], compatible))
    else NoHeader
  }

  // ---------- Setting ----------

  predicate Formed(c: Config) {
    && Shaped(c.options, OptionTable())
    && (forall i :: 0 <= i < |c.images| ==> Shaped(c.images[i].table, ImageTable()))
    && OPTIONS <= c.current < |c.images|
  }

  function Current(c: Config): Table
    requires Formed(c)
  {
    if c.current == OPTIONS then c.options else c.images[c.current].table
  }

  predicate Outdates(c: Config, called: text, i: nat)
    requires Formed(c) && i < |c.images|
  {
    && i != c.current
    && (c.current == OPTIONS || !c.images[c.current].obsolete)
    && IsCalled(c.images[i].table, called)
  }

  /** `check_for_obsolete` */
  function Outdated(c: Config, called: text): Config
    requires Formed(c)
  {
    c.(images := seq(|c.images|, i requires 0 <= i < |c.images| =>
      Image(c.images[i].table, c.images[i].obsolete || Outdates(c, called, i))))
  }

  /** The option that an item sets; None if it sets nothing. */
  function Target(t: Table, item: text, value: Option<text>): (r: Option<nat>)
    ensures r.Some? ==> r.value < |t| && (t[r.value].kind == Strg <==> value.Some?)
  {
    var i := Find(t, item);
    if i == |t| || (t[i].kind == Strg) != value.Some? then None else Some(i)
  }

  function DataOf(value: Option<text>): Data {
    if value.Some? then Is(value.value) else FlagSet
  }

  function Stored(c: Config, i: nat, data: Data): Config
    requires Formed(c) && i < |Current(c)|
  {
    if c.current == OPTIONS then c.(options := c.options[i := c.options[i].(data := Some(data))])
    else
      var t := c.images[c.current].table;
      c.(images := c.images[c.current := c.images[c.current].(table := t[i := t[i].(data := Some(data))])])
  }

  function Assigned(c: Config, item: text, value: Option<text>): Config
    requires Formed(c)
  {
    match Target(Current(c), item, value)
    case None => c
    case Some(i) =>
      var d := if SameName(item, Label()) && value.Some? then Outdated(c, value.value) else c;
      Stored(d, i, DataOf(value))
  }

  function Started(c: Config, ignored: bool): (r: Config)
    requires Formed(c)
    ensures Formed(r)
  {
    Config(c.options, c.images + [Image(ImageTable(), ignored)], |c.images|)
  }

  /** `cfg_set` */
  function AfterSet(c: Config, e: Entry, memory: bool, compatible: seq<text>): Config
    requires Formed(c)
  {
    match HeaderOf(e.item, compatible)
    case NoHeader => Assigned(c, e.item, e.value)
    case Starts(ignored) => if memory then Assigned(Started(c, ignored), e.item[..5], e.value) else c
  }

  lemma AssignedFormed(c: Config, item: text, value: Option<text>)
    requires Formed(c)
    ensures Formed(Assigned(c, item, value))
  {
    hide OptionTable, ImageTable;
  }

  const FRESH := Config(OptionTable(), [], OPTIONS)

  /** The settings when `entries` have been set; those numbered in `denied` find no memory for an image. */
  function Run(entries: seq<Entry>, denied: set<nat>, compatible: seq<text>): (r: Config)
    ensures Formed(r)
  {
    if entries == [] then FRESH
    else
      var n := |entries| - 1;
      var c := Run(entries[..n], denied, compatible);
      AfterSetFormed(c, entries[n], n !in denied, compatible);
      AfterSet(c, entries[n], n !in denied, compatible)
  }

  lemma AfterSetFormed(c: Config, e: Entry, memory: bool, compatible: seq<text>)
    requires Formed(c)
    ensures Formed(AfterSet(c, e, memory, compatible))
  {
    hide Formed, Assigned;
    match HeaderOf(e.item, compatible)
    case NoHeader => AssignedFormed(c, e.item, e.value);
    case Starts(ignored) => AssignedFormed(Started(c, ignored), e.item[..5], e.value);
  }

  // ---------- Labels over whole runs ----------

  function LabelOf(m: Image): Option<text> {
    match Get(m.table, Label())
    case Some(Is(s)) => Some(s)
    case _ => None
  }

  predicate Live(m: Image) {
    !m.obsolete && LabelOf(m).Some?
  }

  /** No two images in use that both carry a label have labels equal up to case. */
  predicate Distinct(images: seq<Image>) {
    forall i, j :: 0 <= i < j < |images| && Live(images[i]) && Live(images[j]) ==>
      !SameName(LabelOf(images[i]).value, LabelOf(images[j]).value)
  }

  lemma {:induction false} FindByNames(t: Table, u: Table, item: text, other: text, i: nat)
    requires |t| == |u| && i <= |t| && (forall k :: 0 <= k < |t| ==> t[k].name == u[k].name)
    requires SameName(item, other)
    ensures FindFrom(t, item, i) == FindFrom(u, other, i)
    decreases |t| - i
  {
    if i < |t| && !SameName(t[i].name, item) {
      FindByNames(t, u, item, other, i + 1);
    }
  }

  // Setting one option leaves those of other names as they are.
  lemma GetOther(t: Table, i: nat, data: Data, item: text)
    requires i < |t|
    ensures var u := t[i := t[i].(data := Some(data))];
      Get(u, item) == if Find(t, item) == i then Some(data) else Get(t, item)
  {
    FindByNames(t, t[i := t[i].(data := Some(data))], item, item, 0);
  }

  lemma NothingSet(item: text)
    ensures Get(ImageTable(), item) == None
  {
    hide FindFrom, OptionTable, ImageTable;
    ImagesUnset();
  }

  // A table in which nothing is set.
  predicate Unset(t: Table) {
    forall i :: 0 <= i < |t| ==> t[i].data == None
  }

  lemma OptionsUnset()
    ensures Unset(OptionTable())
  {
    hide Ascii, ImageTable;
  }

  lemma ImagesUnset()
    ensures Unset(ImageTable())
  {
    hide Ascii, OptionTable;
  }

  lemma LabelInTables()
    ensures Find(OptionTable(), Label()) == |OptionTable()|
    ensures var i := Find(ImageTable(), Label()); i < |ImageTable()| && ImageTable()[i].kind == Strg
    ensures !SameName(ImageName(), Label())
  {
    hide ImageTable, OptionTable, Label, ImageName, SameName;
    FirstSlots();
    ImageNotLabel();
    NoLabelOption();
  }

  lemma FirstSlots()
    ensures |ImageTable()| > 1 && ImageTable()[0].name == ImageName()
    ensures ImageTable()[1].name == Label() && ImageTable()[1].kind == Strg && SameName(Label(), Label())
  {
    hide Ascii;
  }

  lemma ImageNotLabel()
    ensures !SameName(ImageName(), Label())
  {
    assert Lower(Ascii("image")[0]) != Lower(Ascii("label")[0]);
  }

  lemma NoLabelOption()
    ensures Find(OptionTable(), Label()) == |OptionTable()|
  {
    var t := OptionTable();
    forall k | 0 <= k < |t| ensures !SameName(t[k].name, Label()) {
      assert |t[k].name| == 5 ==> false;
    }
  }

  // What one assignment does to the image numbered `i`.
  lemma AssignedImage(c: Config, item: text, value: Option<text>, i: nat)
    requires Formed(c) && i < |c.images|
    ensures
      var d := Assigned(c, item, value);
      var target := Target(Current(c), item, value);
      && Formed(d) && |d.images| == |c.images| && d.current == c.current
      && (i != c.current ==> d.images[i].table == c.images[i].table)
      && (i == c.current ==>
            LabelOf(d.images[i]) == (if target.Some? && SameName(item, Label()) then value else LabelOf(c.images[i])))
      && d.images[i].obsolete == (c.images[i].obsolete ||
           (target.Some? && value.Some? && SameName(item, Label()) && Outdates(c, value.value, i)))
  {
    hide Formed, Outdates, Shaped, Get, ImageTable, OptionTable, Label;
    AssignedFormed(c, item, value);
    CurrentTable(c);
    var target := Target(Current(c), item, value);
    if target.Some? && i == c.current {
      GetOther(c.images[i].table, target.value, DataOf(value), Label());
      LabelTarget(c, item, value);
    }
  }

  lemma CurrentTable(c: Config)
    requires Formed(c)
    ensures OPTIONS <= c.current < |c.images|
    ensures c.current != OPTIONS ==> Shaped(c.images[c.current].table, ImageTable())
    ensures c.current == OPTIONS ==> Shaped(c.options, OptionTable())
  {
    hide Shaped, ImageTable, OptionTable;
  }

  // An item sets the label of an image exactly if it is called so.
  lemma LabelTarget(c: Config, item: text, value: Option<text>)
    requires Formed(c) && c.current != OPTIONS
    ensures var target := Target(Current(c), item, value);
      target.Some? ==> (target.value == Find(Current(c), Label()) <==> SameName(item, Label()))
    ensures SameName(item, Label()) && Target(Current(c), item, value).Some? ==> value.Some?
    ensures SameName(item, Label()) && value.Some? ==> Target(Current(c), item, value).Some?
  {
    hide Label, ImageTable, OptionTable;
    var t := Current(c);
    LabelInTables();
    FindByNames(t, ImageTable(), Label(), Label(), 0);
    if SameName(item, Label()) {
      FindByNames(t, t, item, Label(), 0);
    }
  }

  lemma AssignedKeepsDistinct(c: Config, item: text, value: Option<text>)
    requires Formed(c) && Distinct(c.images)
    ensures Formed(Assigned(c, item, value)) && Distinct(Assigned(c, item, value).images)
  {
    hide Assigned, Formed, Target, Label, Get;
    var d := Assigned(c, item, value);
    AssignedFormed(c, item, value);
    CurrentTable(c);
    forall i, j | 0 <= i < j < |d.images| && Live(d.images[i]) && Live(d.images[j])
      ensures !SameName(LabelOf(d.images[i]).value, LabelOf(d.images[j]).value)
    {
      SizeKept(c, item, value);
      AssignedImage(c, item, value, i);
      AssignedImage(c, item, value, j);
      CalledByLabel(c.images[i]);
      CalledByLabel(c.images[j]);
    }
  }

  lemma SizeKept(c: Config, item: text, value: Option<text>)
    requires Formed(c)
    ensures |Assigned(c, item, value).images| == |c.images|
  {
    hide Formed, Outdates;
    CurrentTable(c);
  }

  lemma CalledByLabel(m: Image)
    ensures LabelOf(m).Some? ==> forall name :: IsCalled(m.table, name) <==> SameName(LabelOf(m).value, name)
  {
    hide Get;
  }

  lemma StartedKeepsDistinct(c: Config, ignored: bool)
    requires Formed(c) && Distinct(c.images)
    ensures Distinct(Started(c, ignored).images)
  {
    hide Get, ImageTable;
    NothingSet(Label());
  }

  /** After every run, no two images in use have the same label. */
  lemma {:induction false} RunDistinct(entries: seq<Entry>, denied: set<nat>, compatible: seq<text>)
    ensures Distinct(Run(entries, denied, compatible).images)
  {
    hide Assigned, Distinct, Formed, HeaderOf;
    if entries == [] {
      NoneAlike();
    } else {
      var n := |entries| - 1;
      RunDistinct(entries[..n], denied, compatible);
      SetKeepsDistinct(Run(entries[..n], denied, compatible), entries[n], n !in denied, compatible);
    }
  }

  lemma NoneAlike()
    ensures Distinct([])
  {
  }

  lemma SetKeepsDistinct(c: Config, e: Entry, memory: bool, compatible: seq<text>)
    requires Formed(c) && Distinct(c.images)
    ensures Distinct(AfterSet(c, e, memory, compatible).images)
  {
    hide Assigned, Distinct, Formed, HeaderOf;
    match HeaderOf(e.item, compatible)
    case NoHeader => AssignedKeepsDistinct(c, e.item, e.value);
    case Starts(ignored) =>
      StartedKeepsDistinct(c, ignored);
      AssignedKeepsDistinct(Started(c, ignored), e.item[..5], e.value);
  }

  /** Exactly when a call makes an image obsolete: a label is given to another image, itself in use, and the
      image goes by that label. */
  lemma WhoOutdates(c: Config, e: Entry, memory: bool, compatible: seq<text>, i: nat)
    requires Formed(c) && i < |c.images| && !c.images[i].obsolete
    ensures var d := AfterSet(c, e, memory, compatible);
      i < |d.images| &&
      (d.images[i].obsolete <==>
        && SameName(e.item, Label()) && e.value.Some?
        && c.current != OPTIONS && c.current != i && !c.images[c.current].obsolete
        && IsCalled(c.images[i].table, e.value.value))
  {
    hide Formed, Assigned, IsCalled, Label, ImageName, Target, OptionTable, ImageTable, AnyMatches;
    CurrentTable(c);
    match HeaderOf(e.item, compatible)
    case NoHeader =>
      AssignedImage(c, e.item, e.value, i);
      if c.current != OPTIONS {
        LabelTarget(c, e.item, e.value);
      } else {
        NoLabelTarget(c, e.item, e.value);
      }
    case Starts(ignored) =>
      HeaderIsNoLabel(e.item, compatible);
      AssignedImage(Started(c, ignored), e.item[..5], e.value, i);
  }

  lemma HeaderIsNoLabel(item: text, compatible: seq<text>)
    requires HeaderOf(item, compatible).Starts?
    ensures !SameName(item, Label()) && !SameName(item[..5], Label())
  {
    hide HeaderOf, ImageName, Label, SameName;
    ImageIsNoLabel(item[..5]);
    LabelSize(item);
  }

  lemma ImageIsNoLabel(item: text)
    ensures SameName(item, ImageName()) ==> !SameName(item, Label())
  {
    hide Label, ImageName;
    LabelInTables();
  }

  lemma LabelSize(item: text)
    requires |item| >= 5
    ensures SameName(item, Label()) ==> item[..5] == item
  {
  }

  // The global options have no label.
  lemma NoLabelTarget(c: Config, item: text, value: Option<text>)
    requires Formed(c) && c.current == OPTIONS
    ensures SameName(item, Label()) ==> Target(Current(c), item, value).None?
  {
    hide Label, ImageTable, OptionTable;
    LabelInTables();
    if SameName(item, Label()) {
      FindByNames(Current(c), OptionTable(), item, Label(), 0);
    }
  }

  /** Obsolete is never undone, and images never go away. */
  lemma {:induction false} ObsoleteStays(entries: seq<Entry>, k: nat, denied: set<nat>, compatible: seq<text>)
    requires k <= |entries|
    ensures var before := Run(entries[..k], denied, compatible).images;
      var now := Run(entries, denied, compatible).images;
      |before| <= |now| && forall i :: 0 <= i < |before| && before[i].obsolete ==> now[i].obsolete
    decreases |entries|
  {
    hide AfterSet, Formed;
    if k == |entries| {
      assert entries[..k] == entries;
    } else {
      var n := |entries| - 1;
      assert entries[..n][..k] == entries[..k];
      ObsoleteStays(entries[..n], k, denied, compatible);
      SetKeepsObsolete(Run(entries[..n], denied, compatible), entries[n], n !in denied, compatible);
    }
  }

  lemma SetKeepsObsolete(c: Config, e: Entry, memory: bool, compatible: seq<text>)
    requires Formed(c)
    ensures var now := AfterSet(c, e, memory, compatible).images;
      |c.images| <= |now| && forall i :: 0 <= i < |c.images| && c.images[i].obsolete ==> now[i].obsolete
  {
    hide Formed, Assigned, HeaderOf;
    match HeaderOf(e.item, compatible)
    case NoHeader =>
      SizeKept(c, e.item, e.value);
      forall i | 0 <= i < |c.images| && c.images[i].obsolete
        ensures Assigned(c, e.item, e.value).images[i].obsolete
      {
        AssignedImage(c, e.item, e.value, i);
      }
    case Starts(ignored) =>
      var d := Started(c, ignored);
      SizeKept(d, e.item[..5], e.value);
      forall i | 0 <= i < |c.images| && c.images[i].obsolete
        ensures Assigned(d, e.item[..5], e.value).images[i].obsolete
      {
        AssignedImage(d, e.item[..5], e.value, i);
      }
  }

  /** A label taken by an image in use is then its own, and no other image in use goes by it. */
  lemma LastLabelWins(c: Config, e: Entry, memory: bool, compatible: seq<text>)
    requires Formed(c) && c.current != OPTIONS && !c.images[c.current].obsolete
    requires SameName(e.item, Label()) && e.value.Some?
    ensures var d := AfterSet(c, e, memory, compatible);
      && d.current == c.current && |d.images| == |c.images|
      && !d.images[c.current].obsolete && LabelOf(d.images[c.current]) == e.value
      && forall i :: 0 <= i < |d.images| && i != c.current && !d.images[i].obsolete ==>
        !IsCalled(d.images[i].table, e.value.value)
  {
    hide Formed, Assigned, IsCalled, Label, Target, HeaderOf, LabelOf;
    CurrentTable(c);
    LabelIsNoHeader(e.item, compatible);
    LabelTarget(c, e.item, e.value);
    SizeKept(c, e.item, e.value);
    AssignedImage(c, e.item, e.value, c.current);
    var d := AfterSet(c, e, memory, compatible);
    forall i | 0 <= i < |d.images| && i != c.current && !d.images[i].obsolete
      ensures !IsCalled(d.images[i].table, e.value.value)
    {
      AssignedImage(c, e.item, e.value, i);
    }
  }

  lemma LabelIsNoHeader(item: text, compatible: seq<text>)
    requires SameName(item, Label())
    ensures HeaderOf(item, compatible) == NoHeader
  {
    hide HeaderOf, Label, SameName;
    if HeaderOf(item, compatible).Starts? {
      HeaderIsNoLabel(item, compatible);
    }
  }

  // ---------- Looking up ----------

  /** What follows the last slash. */
  function BaseName(path: text): text {
    if SLASH in path then BaseName(path[1..]) else path
  }

  lemma {:induction false} BaseNameIs(dir: text, name: text)
    requires SLASH !in name
    ensures BaseName(name) == name && BaseName(dir + [SLASH] + name) == name
  {
    var path := dir + [SLASH] + name;
    assert path[|dir|] == SLASH;
    if dir == [] {
      assert path[1..] == name;
    } else {
      assert path[1..] == dir[1..] + [SLASH] + name;
      BaseNameIs(dir[1..], name);
    }
  }

  /** The name of an image in the menu: its label, or the last part of its path. */
  function MenuName(t: Table): Option<text> {
    match Get(t, Label())
    case Some(Is(s)) => Some(s)
    case _ =>
      match Get(t, ImageName())
      case Some(Is(path)) => Some(BaseName(path))
      case _ => None
  }

  predicate Answers(m: Image, name: text) {
    !m.obsolete && (MenuName(m.table) == Some(name) || Get(m.table, Alias()) == Some(Is(name)))
  }

  function FirstAnswer(images: seq<Image>, name: text, i: nat): (r: nat)
    requires i <= |images|
    ensures i <= r <= |images| && (r < |images| ==> Answers(images[r], name))
    ensures forall k :: i <= k < r ==> !Answers(images[k], name)
    decreases |images| - i
  {
    if i == |images| || Answers(images[i], name) then i else FirstAnswer(images, name, i + 1)
  }

  /** `cfg_get_strg` */
  function LookUp(c: Config, image: Option<text>, item: text): Option<Data> {
    if image == None then Get(c.options, item)
    else
      var p := FirstAnswer(c.images, image.value, 0);
      if p == |c.images| then None
      else if Get(c.images[p].table, item).Some? then Get(c.images[p].table, item)
      else Get(c.options, item)
  }

  /** The look-up stops at an image in use that has neither label nor path: the source goes wrong there. */
  predicate AllNamed(images: seq<Image>, n: nat) {
    forall j :: 0 <= j < |images| && j < n && !images[j].obsolete ==> MenuName(images[j].table).Some?
  }

  /** Nothing in front of image i keeps a look-up for `name` from getting there: no alias, no path of an image
      without a label, and no image without a name. */
  predicate WayFree(images: seq<Image>, i: nat, name: text)
    requires i < |images|
  {
    forall j :: 0 <= j < i && !images[j].obsolete ==>
      && Get(images[j].table, Alias()) != Some(Is(name))
      && (LabelOf(images[j]) == None ==> MenuName(images[j].table).Some? && MenuName(images[j].table) != Some(name))
  }

  /** After a whole run, an image in use that carries a label is the first to answer to it, and the look-up is safe
      as far as there, exactly when nothing in front of it is in the way. */
  lemma FoundByLabel(entries: seq<Entry>, denied: set<nat>, compatible: seq<text>, i: nat, name: text)
    requires var c := Run(entries, denied, compatible);
      i < |c.images| && !c.images[i].obsolete && LabelOf(c.images[i]) == Some(name)
    ensures var c := Run(entries, denied, compatible);
      FirstAnswer(c.images, name, 0) == i && AllNamed(c.images, i + 1) <==> WayFree(c.images, i, name)
  {
    hide Get, Run, Label, ImageName, Alias, BaseName;
    var c := Run(entries, denied, compatible);
    RunDistinct(entries, denied, compatible);
    assert Answers(c.images[i], name);
    forall j | 0 <= j < i && !c.images[j].obsolete
      ensures MenuName(c.images[j].table) != Some(name) || LabelOf(c.images[j]) == None
    {
      assert LabelOf(c.images[j]).Some? ==> !SameName(LabelOf(c.images[j]).value, LabelOf(c.images[i]).value);
    }
  }

  /** The look-up then gives the option of that image. */
  lemma LookUpByLabel(entries: seq<Entry>, denied: set<nat>, compatible: seq<text>, i: nat, name: text, item: text)
    requires var c := Run(entries, denied, compatible);
      && i < |c.images| && !c.images[i].obsolete && LabelOf(c.images[i]) == Some(name)
      && WayFree(c.images, i, name)
    ensures var c := Run(entries, denied, compatible);
      && AllNamed(c.images, FirstAnswer(c.images, name, 0) + 1)
      && LookUp(c, Some(name), item) ==
        if Get(c.images[i].table, item).Some? then Get(c.images[i].table, item) else Get(c.options, item)
  {
    hide Get, Run, FirstAnswer, WayFree, AllNamed;
    FoundByLabel(entries, denied, compatible, i, name);
  }

  /** A header without a path, and with no label behind it, makes an image that no look-up gets past. */
  lemma BareImage(c: Config, e: Entry, compatible: seq<text>)
    requires Formed(c) && HeaderOf(e.item, compatible) == Starts(false) && e.value == None
    ensures var d := AfterSet(c, e, true, compatible);
      && d == Started(c, false) && !d.images[|c.images|].obsolete
      && MenuName(d.images[|c.images|].table) == None && !AllNamed(d.images, |d.images|)
  {
    hide Formed, ImageTable, OptionTable, SameName, Label, ImageName, HeaderOf, Get;
    var d := Started(c, false);
    FirstIsImage();
    HeaderIsImage(e.item, compatible);
    FindByNames(ImageTable(), ImageTable(), ImageName(), e.item[..5], 0);
    NothingSet(Label());
    NothingSet(ImageName());
    assert Current(d) == ImageTable();
    assert MenuName(d.images[|c.images|].table) == None;
  }

  lemma HeaderIsImage(item: text, compatible: seq<text>)
    requires HeaderOf(item, compatible).Starts?
    ensures SameName(ImageName(), item[..5])
  {
    hide HeaderOf, ImageName;
  }

  // ---------- What is set is looked up ----------

  // The table of an image, or of the global options.
  function TableOf(c: Config, section: int): Table
    requires OPTIONS <= section < |c.images|
  {
    if section == OPTIONS then c.options else c.images[section].table
  }

  function Model(section: int): Table {
    if section == OPTIONS then OptionTable() else ImageTable()
  }

  /** The first option of that name in the table wants a value exactly if there is one. */
  predicate Takes(t: Table, item: text, value: Option<text>) {
    exists k :: 0 <= k < |t| && SameName(t[k].name, item) && (t[k].kind == Strg <==> value.Some?)
      && forall j :: 0 <= j < k ==> !SameName(t[j].name, item)
  }

  /** Whether an entry gets memory for an image if it needs one. */
  predicate Heard(e: Entry, memory: bool, compatible: seq<text>) {
    memory || HeaderOf(e.item, compatible) == NoHeader
  }

  /** The name of the option that an entry sets: a header sets the image option. */
  function ItemOf(e: Entry, compatible: seq<text>): text {
    if HeaderOf(e.item, compatible).Starts? then e.item[..5] else e.item
  }

  /** An entry that fits an option of the current table sets it, whatever the case of its name, and no other option
      of any table.  A header has a new image as its current table, with nothing set in front. */
  lemma SetMeans(c: Config, e: Entry, memory: bool, compatible: seq<text>, section: int, name: text)
    requires Formed(c)
    requires OPTIONS <= section < |AfterSet(c, e, memory, compatible).images|
    ensures var d := AfterSet(c, e, memory, compatible);
      && (if HeaderOf(e.item, compatible).Starts? && memory then
            |d.images| == |c.images| + 1 && d.current == |c.images|
          else
            |d.images| == |c.images| && d.current == c.current)
      && Get(TableOf(d, section), name) ==
        (if && section == d.current && Heard(e, memory, compatible)
            && SameName(name, ItemOf(e, compatible)) && Takes(Model(section), ItemOf(e, compatible), e.value) then
           Some(match e.value case Some(s) => Is(s) case None => FlagSet)
         else if section < |c.images| then Get(TableOf(c, section), name)
         else None)
  {
    hide Formed, Assigned, SameName, OptionTable, ImageTable, Takes, Get, AnyMatches;
    match HeaderOf(e.item, compatible)
    case NoHeader =>
      SizeKept(c, e.item, e.value);
      AssignedMeans(c, e.item, e.value, section, name);
    case Starts(ignored) =>
      if memory {
        SizeKept(Started(c, ignored), e.item[..5], e.value);
        AssignedMeans(Started(c, ignored), e.item[..5], e.value, section, name);
        NothingSet(name);
      }
  }

  lemma AssignedMeans(c: Config, item: text, value: Option<text>, section: int, name: text)
    requires Formed(c) && OPTIONS <= section < |c.images|
    ensures var d := Assigned(c, item, value);
      && |d.images| == |c.images| && d.current == c.current
      && Get(TableOf(d, section), name) ==
        if section == c.current && SameName(name, item) && Takes(Model(section), item, value) then
          Some(match value case Some(s) => Is(s) case None => FlagSet)
        else Get(TableOf(c, section), name)
  {
    hide Formed, SameName, OptionTable, ImageTable, Takes, Get, Target, Outdates;
    CurrentTable(c);
    SizeKept(c, item, value);
    var t := Current(c);
    TargetTakes(t, Model(c.current), item, value);
    if Target(t, item, value).Some? {
      GetSame(t, Target(t, item, value).value, DataOf(value), item, name);
    }
  }

  lemma TargetTakes(t: Table, model: Table, item: text, value: Option<text>)
    requires Shaped(t, model)
    ensures Target(t, item, value).Some? <==> Takes(model, item, value)
    ensures Target(t, item, value).Some? ==> Target(t, item, value).value == Find(t, item)
  {
    hide SameName;
    var i := Find(t, item);
    assert forall j :: 0 <= j < |t| ==> SameName(t[j].name, item) == SameName(model[j].name, item);
  }

  lemma GetSame(t: Table, i: nat, data: Data, item: text, name: text)
    requires i < |t| && i == Find(t, item)
    ensures Get(t[i := t[i].(data := Some(data))], name) == if SameName(name, item) then Some(data) else Get(t, name)
  {
    hide Get;
    GetOther(t, i, data, name);
    if SameName(name, item) {
      FindByNames(t, t, name, item, 0);
    }
  }

  /** The number of the image that the entries are about in the end. */
  function Section(entries: seq<Entry>, denied: set<nat>, compatible: seq<text>): (r: int)
    ensures r >= OPTIONS
  {
    if entries == [] then OPTIONS
    else
      var n := |entries| - 1;
      var starts := HeaderOf(entries[n].item, compatible).Starts? && n !in denied;
      Section(entries[..n], denied, compatible) + if starts then 1 else 0
  }

  /** Entry k sets the option `name` of a section. */
  predicate Sets(entries: seq<Entry>, k: nat, denied: set<nat>, compatible: seq<text>, section: int, name: text)
    requires k < |entries|
  {
    var e := entries[k];
    && section == Section(entries[..k + 1], denied, compatible)
    && Heard(e, k !in denied, compatible)
    && SameName(name, ItemOf(e, compatible)) && Takes(Model(section), ItemOf(e, compatible), e.value)
  }

  /** No entry from number `from` on sets it. */
  predicate NoneSets(entries: seq<Entry>, from: nat, denied: set<nat>, compatible: seq<text>, section: int, name: text)
  {
    forall l: nat | from <= l < |entries| :: !Sets(entries, l, denied, compatible, section, name)
  }

  // The last image is the current one.
  lemma {:induction false} RunSection(entries: seq<Entry>, denied: set<nat>, compatible: seq<text>)
    ensures var c := Run(entries, denied, compatible);
      c.current == Section(entries, denied, compatible) == |c.images| - 1
  {
    hide AfterSet, Get, HeaderOf, SameName, OptionTable, ImageTable, Takes, Formed;
    if entries != [] {
      var n := |entries| - 1;
      RunSection(entries[..n], denied, compatible);
      SetMeans(Run(entries[..n], denied, compatible), entries[n], n !in denied, compatible, OPTIONS, Label());
    }
  }

  // What the last entry of a run does.
  lemma RunStep(entries: seq<Entry>, denied: set<nat>, compatible: seq<text>, section: int, name: text)
    requires entries != [] && OPTIONS <= section < |Run(entries, denied, compatible).images|
    ensures var n := |entries| - 1;
      var c, d := Run(entries[..n], denied, compatible), Run(entries, denied, compatible);
      && |c.images| <= |d.images|
      && Get(TableOf(d, section), name) ==
        if Sets(entries, n, denied, compatible, section, name) then
          Some(match entries[n].value case Some(s) => Is(s) case None => FlagSet)
        else if section < |c.images| then Get(TableOf(c, section), name)
        else None
  {
    hide AfterSet, Get, HeaderOf, SameName, OptionTable, ImageTable, Takes, Formed, Section;
    var n := |entries| - 1;
    assert entries[..n + 1] == entries;
    RunSection(entries, denied, compatible);
    SetMeans(Run(entries[..n], denied, compatible), entries[n], n !in denied, compatible, section, name);
  }

  lemma SetsInFront(entries: seq<Entry>, n: nat, k: nat, denied: set<nat>, compatible: seq<text>, section: int,
                    name: text)
    requires k < n <= |entries|
    ensures Sets(entries, k, denied, compatible, section, name)
       <==> Sets(entries[..n], k, denied, compatible, section, name)
  {
    hide Section, Heard, SameName, Takes, ItemOf;
    assert entries[..n][..k + 1] == entries[..k + 1];
  }

  /** After a whole run an option is what the last entry that sets it says. */
  lemma {:induction false} LastEntryWins(entries: seq<Entry>, k: nat, denied: set<nat>, compatible: seq<text>,
                                         section: int, name: text)
    requires k < |entries| && Sets(entries, k, denied, compatible, section, name)
    requires NoneSets(entries, k + 1, denied, compatible, section, name)
    ensures var c := Run(entries, denied, compatible);
      && OPTIONS <= section < |c.images|
      && Get(TableOf(c, section), name) == Some(match entries[k].value case Some(s) => Is(s) case None => FlagSet)
    decreases |entries|
  {
    hide Run, Sets, Get, SameName, OptionTable, ImageTable, Takes, Formed;
    var n := |entries| - 1;
    RunSection(entries, denied, compatible);
    if k == n {
      SetsHere(entries, k, denied, compatible, section, name);
    } else {
      forall l | k <= l < n
        ensures Sets(entries, l, denied, compatible, section, name)
           <==> Sets(entries[..n], l, denied, compatible, section, name)
      {
        SetsInFront(entries, n, l, denied, compatible, section, name);
      }
      LastEntryWins(entries[..n], k, denied, compatible, section, name);
      RunSection(entries[..n], denied, compatible);
    }
    RunStep(entries, denied, compatible, section, name);
  }

  lemma SetsHere(entries: seq<Entry>, k: nat, denied: set<nat>, compatible: seq<text>, section: int, name: text)
    requires k == |entries| - 1 && Sets(entries, k, denied, compatible, section, name)
    ensures section == Section(entries, denied, compatible)
  {
    hide Section, Heard, SameName, Takes, ItemOf;
    assert entries[..k + 1] == entries;
  }

  /** An option that no entry sets is not set. */
  lemma {:induction false} NeverSet(entries: seq<Entry>, denied: set<nat>, compatible: seq<text>, section: int,
                                    name: text)
    requires OPTIONS <= section < |Run(entries, denied, compatible).images|
    requires NoneSets(entries, 0, denied, compatible, section, name)
    ensures Get(TableOf(Run(entries, denied, compatible), section), name) == None
    decreases |entries|
  {
    hide Sets, Get, SameName, OptionTable, ImageTable, Takes, Formed, AfterSet;
    if entries == [] {
      NothingGlobal(name);
    } else {
      var n := |entries| - 1;
      RunStep(entries, denied, compatible, section, name);
      if section < |Run(entries[..n], denied, compatible).images| {
        forall l: nat | l < n ensures !Sets(entries[..n], l, denied, compatible, section, name) {
          SetsInFront(entries, n, l, denied, compatible, section, name);
        }
        NeverSet(entries[..n], denied, compatible, section, name);
      }
    }
  }

  /** Looked up by the label of an image, an option is what the last entry about that image says, or else the last
      entry about all images. */
  lemma LookUpSet(entries: seq<Entry>, k: nat, denied: set<nat>, compatible: seq<text>, i: nat, name: text, item: text)
    requires var c := Run(entries, denied, compatible);
      && i < |c.images| && !c.images[i].obsolete && LabelOf(c.images[i]) == Some(name)
      && WayFree(c.images, i, name)
    requires k < |entries|
    requires var section := if NoneSets(entries, 0, denied, compatible, i, item) then OPTIONS else i;
      && Sets(entries, k, denied, compatible, section, item)
      && NoneSets(entries, k + 1, denied, compatible, section, item)
    ensures LookUp(Run(entries, denied, compatible), Some(name), item)
         == Some(match entries[k].value case Some(s) => Is(s) case None => FlagSet)
  {
    hide Run, Sets, NoneSets, Get, Label, SameName, WayFree, FirstAnswer, AllNamed, LookUp;
    LookUpByLabel(entries, denied, compatible, i, name, item);
    if NoneSets(entries, 0, denied, compatible, i, item) {
      NeverSet(entries, denied, compatible, i, item);
      LastEntryWins(entries, k, denied, compatible, OPTIONS, item);
    } else {
      LastEntryWins(entries, k, denied, compatible, i, item);
    }
  }

  lemma NothingGlobal(item: text)
    ensures Get(OptionTable(), item) == None
  {
    hide FindFrom, OptionTable, ImageTable;
    OptionsUnset();
  }

  /** A printed list of entries has, after cfg_parse, the effect of setting them one by one. */
  lemma PrintedRun(entries: seq<Entry>, denied: set<nat>, compatible: seq<text>)
    requires AllPrintable(entries)
    ensures var (read, ok) := Parsed(Stream(PrintedAll(entries), None));
      ok && Run(read, denied, compatible) == Run(entries, denied, compatible)
  {
    hide Run;
    RoundTrip(entries);
  }

  // ---------- The configuration ----------

  class Configuration {
    // The "compatible" property of the machine, one name after the other.
    const compatible: seq<text>
    var options: Table
    var images: seq<Image>
    var current: int

    function State(): Config
      reads this
    {
      Config(options, images, current)
    }

    predicate Valid()
      reads this
    {
      Formed(State())
    }

    constructor (compatible: seq<text>)
      ensures Valid() && State() == FRESH && this.compatible == compatible
    {
      this.compatible := compatible;
      options, images, current := OptionTable(), [], OPTIONS;
    }

    /** `cfg_get_strg_i` */
    static method GetStrgI(t: Table, item: text) returns (data: Option<Data>)
      ensures data == Get(t, item)
    {
      var walk := 0;
      while walk < |t|
        invariant 0 <= walk <= |t| && FindFrom(t, item, walk) == Find(t, item)
      {
        if SameName(t[walk].name, item) {
          return t[walk].data;
        }
        walk := walk + 1;
      }
      return None;
    }

    /** `match_arch` */
    method MatchArch(name: text) returns (found: bool)
      ensures found <==> Matches(name, compatible)
    {
      var p := 0;
      while p < |compatible|
        invariant 0 <= p <= |compatible| && forall i :: 0 <= i < p ==> !SameName(compatible[i], name)
      {
        if SameName(compatible[p], name) {
          return true;
        }
        p := p + 1;
      }
      return false;
    }

    // The names between the brackets of a header, one after the other.
    method MatchAny(names: text) returns (found: bool)
      ensures found <==> AnyMatches(names, compatible)
    {
      var s, more := names, true;
      while more
        invariant AnyMatches(names, compatible) <==> more && AnyMatches(s, compatible)
        decreases |s|, more
      {
        var q := NextBar(s, 0);
        found := MatchArch(s[..q]);
        if found {
          return;
        }
        more := q < |s|;
        if more {
          s := s[q + 1..];
        }
      }
      return false;
    }

    /** `check_for_obsolete` */
    method CheckForObsolete(called: text)
      requires Valid()
      modifies `images
      ensures Valid() && State() == Outdated(old(State()), called)
    {
      hide OptionTable, ImageTable, IsCalled, SameName, Ascii, Outdated, Get, Label, ImageName, Shaped;
      OutdatedAt(State(), called);
      if current != OPTIONS && images[current].obsolete {
        assert images == Outdated(old(State()), called).images;
        return;
      }
      var p := 0;
      while p < |images|
        invariant Valid() && 0 <= p <= |images| == |old(images)|
        invariant forall i :: 0 <= i < p ==> images[i] == Outdated(old(State()), called).images[i]
        invariant forall i :: p <= i < |images| ==> images[i] == old(images)[i]
      {
        if p != current {
          var other := GetStrgI(images[p].table, Label());
          if other == None {
            other := GetStrgI(images[p].table, ImageName());
          }
          CalledString(images[p].table);
          if other.Some? && SameName(other.value.s, called) {
            images := images[p := images[p].(obsolete := true)];
          }
        }
        p := p + 1;
      }
      assert images == Outdated(old(State()), called).images;
    }

    // Sets the option numbered `i` of the current table.
    method Store(i: nat, data: Data)
      requires Valid() && i < |Current(State())|
      modifies `options, `images
      ensures State() == Stored(old(State()), i, data)
    {
      hide OptionTable, ImageTable, Shaped;
      CurrentTable(State());
      if current == OPTIONS {
        options := options[i := options[i].(data := Some(data))];
      } else {
        var t := images[current].table;
        images := images[current := images[current].(table := t[i := t[i].(data := Some(data))])];
      }
    }

    // The walk through the current table, from cfg_set_redo on.
    method Assign(item: text, value: Option<text>) returns (found: bool)
      requires Valid()
      modifies `options, `images
      ensures Valid() && State() == Assigned(old(State()), item, value)
      ensures found <==> Find(Current(old(State())), item) < |Current(old(State()))|
    {
      hide OptionTable, ImageTable, Shaped, Formed, Outdated, SameName, Stored;
      AssignedFormed(State(), item, value);
      CurrentTable(State());
      var table := if current == OPTIONS then options else images[current].table;
      var walk := 0;
      while walk < |table|
        invariant 0 <= walk <= |table| && FindFrom(table, item, walk) == Find(table, item)
      {
        if SameName(table[walk].name, item) {
          if (table[walk].kind == Strg) == value.Some? {
            if SameName(item, Label()) && value.Some? {
              OutdatedTable(State(), value.value);
              CheckForObsolete(value.value);
            }
            Store(walk, if table[walk].kind == Flag then FlagSet else Is(value.value));
          }
          return true;
        }
        walk := walk + 1;
      }
      return false;
    }

    /** `cfg_set` */
    method SetEntry(e: Entry, memory: bool) returns (r: int)
      requires Valid()
      modifies `options, `images, `current
      ensures Valid() && State() == AfterSet(old(State()), e, memory, compatible)
      ensures r == -1 <==> HeaderOf(e.item, compatible).Starts? && !memory
    {
      hide OptionTable, ImageTable, Shaped, Formed, SameName, Assigned, AnyMatches;
      AfterSetFormed(State(), e, memory, compatible);
      var item := e.item;
      if StartsImage(item) {
        var ignore := false;
        var starts := |item| == 5;
        if |item| > 5 && item[5] == OPENING_BRACKET && item[|item| - 1] == CLOSING_BRACKET {
          var found := MatchAny(item[6..|item| - 1]);
          item := item[..5];
          ignore, starts := !found, true;
        }
        if starts {
          if !memory {
            return -1;
          }
          assert e.item[..5] == item;
          ghost var started := Started(State(), ignore);
          images := images + [Image(ImageTable(), ignore)];
          current := |images| - 1;
          assert State() == started;
        }
      }
      var found := Assign(item, e.value);
      r := if found then 1 else 0;
    }

    // `cfg_reset`
    method Reset()
      requires Valid()
      modifies `options, `images, `current
      ensures Valid() && State() == FRESH
    {
      hide Ascii;
      images, current := [], OPTIONS;
      var walk := 0;
      while walk < |options|
        invariant images == [] && current == OPTIONS
        invariant 0 <= walk <= |options| && Shaped(options, OptionTable())
        invariant forall i :: 0 <= i < walk ==> options[i].data == None
      {
        options := options[walk := options[walk].(data := None)];
        walk := walk + 1;
      }
      OnlyNames(options);
    }

    /** `cfg_parse`; the entries numbered in `denied` find no memory for an image. */
    method Parse(reader: ConfigReader, denied: set<nat>) returns (ok: bool)
      requires Valid() && reader.Valid()
      modifies `options, `images, `current, reader
      ensures Valid() && reader.Valid()
      ensures var (entries, fine) := Parsed(old(reader.Pending()));
        ok == fine && State() == Run(entries, denied, compatible)
    {
      hide Next, FRESH, Formed, AfterSet;
      Reset();
      ghost var read: seq<Entry> := [];
      var n := 0;
      NothingBefore(Parsed(reader.Pending()));
      while true
        invariant Valid() && reader.Valid() && n == |read|
        invariant Behind(read, Parsed(reader.Pending())) == Parsed(old(reader.Pending()))
        invariant State() == Run(read, denied, compatible)
        decreases Left(reader.Pending())
      {
        NextShortens(reader.Pending());
        ParsedStep(read, reader.Pending());
        var entry, failed := reader.NextEntry();
        if failed {
          return false;
        }
        if entry == None {
          return true;
        }
        var _ := SetEntry(entry.value, n !in denied);
        assert (read + [entry.value])[..n] == read;
        read := read + [entry.value];
        n := n + 1;
      }
    }

    /** `cfg_get_strg` */
    method GetStrg(image: Option<text>, item: text) returns (data: Option<Data>)
      requires Valid()
      requires image.Some? ==> AllNamed(images, FirstAnswer(images, image.value, 0) + 1)
      ensures data == LookUp(State(), image, item)
    {
      hide Get, Label, ImageName, Alias, BaseName, Shaped, OptionTable, ImageTable, MenuName;
      if image == None {
        data := GetStrgI(options, item);
        return;
      }
      var p := 0;
      while p < |images|
        invariant 0 <= p <= |images| && FirstAnswer(images, image.value, p) == FirstAnswer(images, image.value, 0)
      {
        if !images[p].obsolete {
          StringOptions(images[p].table);
          var answers := Answering(images[p].table, image.value);
          if answers {
            data := GetStrgI(images[p].table, item);
            if data == None {
              data := GetStrgI(options, item);
            }
            return;
          }
        }
        p := p + 1;
      }
      return None;
    }

    static method Answering(t: Table, image: text) returns (answers: bool)
      requires Get(t, Label()).None? || Get(t, Label()).value.Is?
      requires Get(t, ImageName()).None? || Get(t, ImageName()).value.Is?
      requires MenuName(t).Some?
      ensures answers <==> Answers(Image(t, false), image)
    {
      hide Get, Label, ImageName, Alias, BaseName;
      var name := GetStrgI(t, Label());
      if name == None {
        var path := GetStrgI(t, ImageName());
        name := if path.Some? then Some(Is(BaseName(path.value.s))) else None;
      }
      var alias := GetStrgI(t, Alias());
      answers := (name.Some? && name.value.s == image) || alias == Some(Is(image));
    }
  }

  lemma OutdatedAt(c: Config, called: text)
    requires Formed(c)
    ensures var d := Outdated(c, called);
      && d == c.(images := d.images) && |d.images| == |c.images|
      && forall i :: 0 <= i < |c.images| ==>
        d.images[i] == Image(c.images[i].table, c.images[i].obsolete || Outdates(c, called, i))
  {
  }

  lemma CalledString(t: Table)
    requires Shaped(t, ImageTable())
    ensures var called := Called(t);
      && (called.Some? ==> called.value.Is?)
      && forall name :: IsCalled(t, name) <==> called.Some? && SameName(called.value.s, name)
  {
    hide Ascii, ImageTable;
    StringOptions(t);
  }

  lemma StringOptions(t: Table)
    requires Shaped(t, ImageTable())
    ensures Get(t, Label()).None? || Get(t, Label()).value.Is?
    ensures Get(t, ImageName()).None? || Get(t, ImageName()).value.Is?
  {
    hide Ascii, ImageName, Label, ImageTable, OptionTable, SameName;
    LabelInTables();
    FirstIsImage();
    FindByNames(t, ImageTable(), Label(), Label(), 0);
    FindByNames(t, ImageTable(), ImageName(), ImageName(), 0);
  }

  lemma FirstIsImage()
    ensures |ImageTable()| > 0 && Find(ImageTable(), ImageName()) == 0 && ImageTable()[0].kind == Strg
    ensures SameName(ImageName(), ImageName()) && SameName(Label(), Label())
  {
  }

  // Making images obsolete leaves the current table alone.
  lemma OutdatedTable(c: Config, called: text)
    requires Formed(c)
    ensures Formed(Outdated(c, called)) && Current(Outdated(c, called)) == Current(c)
  {
    hide OptionTable, ImageTable, Shaped, IsCalled;
  }

  lemma OnlyNames(t: Table)
    requires Shaped(t, OptionTable()) && forall i :: 0 <= i < |t| ==> t[i].data == None
    ensures t == OptionTable()
  {
    hide Ascii;
    var m := OptionTable();
    forall i | 0 <= i < |t| ensures t[i] == m[i] {
      assert m[i].data == None;
    }
  }
}
