/** The mode option of drm_modes.c, `<xres>x<yres>[M][R][-<bpp>][@<refresh>][i][m][eDd]`, which the
    kernel parses from its end to its beginning. */
module ModeOption {
  import opened Lists

  const U32 := 0x1_0000_0000

  datatype Force = Unspecified | Off | On | OnDigital

  /** struct drm_cmdline_mode; fields that the option does not mention keep their initial 0. */
  datatype Cmdline = Cmdline(specified: bool, xres: nat, yres: nat, refreshSpecified: bool, refresh: nat,
                             bppSpecified: bool, bpp: nat, rb: bool, cvt: bool, interlace: bool, margins: bool,
                             force: Force)

  const EMPTY := Cmdline(false, 0, 0, false, 0, false, 0, false, false, false, false, Unspecified)

  // ---------------------------------------------------------------- numbers

  predicate IsDigit(c: char) {
    '0' <= c <= '9'
  }

  predicate AllDigits(s: string) {
    forall k :: 0 <= k < |s| ==> IsDigit(s[k])
  }

  /** How many digits s begins with */
  function Digits(s: string): (n: nat)
    ensures n <= |s| && (n < |s| ==> !IsDigit(s[n])) && AllDigits(s[..n])
  {
    if s == [] || !IsDigit(s[0]) then 0
    else
      var n := Digits(s[1..]);
      assert s[..n + 1] == [s[0]] + s[1..][..n];
      n + 1
  }

  function Value(digits: string): nat
    requires AllDigits(digits)
  {
    if digits == [] then 0
    else
      assert IsDigit(digits[|digits| - 1]);
      10 * Value(digits[..|digits| - 1]) + (digits[|digits| - 1] - '0') as nat
  }

  /** simple_strtol in base 10, assigned to an unsigned int */
  function Number(s: string): nat {
    Value(s[..Digits(s)]) % U32
  }

  // ---------------------------------------------------------------- the scan

  datatype State = State(yresSpecified: bool, yres: nat, bppSpecified: bool, bpp: nat, refreshSpecified: bool,
                         refresh: nat, cvt: bool, rb: bool, interlace: bool, margins: bool, force: Force,
                         wasDigit: bool)

  const START := State(false, 0, false, 32, false, 0, false, false, false, false, Unspecified, false)

  /** One character, with the part of the option behind it; None is a parse error.  After an 'x' a digit
      counts as seen. */
  function Read(c: char, behind: string, s: State, digital: bool): Option<State> {
    if c == '@' then
      if !s.refreshSpecified && !s.bppSpecified && !s.yresSpecified && !s.cvt && !s.rb && s.wasDigit then
        Some(s.(refresh := Number(behind), refreshSpecified := true, wasDigit := false))
      else None
    else if c == '-' then
      if !s.bppSpecified && !s.yresSpecified && !s.cvt && !s.rb && s.wasDigit then
        Some(s.(bpp := Number(behind), bppSpecified := true, wasDigit := false))
      else None
    else if c == 'x' then
      if !s.yresSpecified && s.wasDigit then Some(s.(yres := Number(behind), yresSpecified := true, wasDigit := true))
      else None
    else if IsDigit(c) then Some(s.(wasDigit := true))
    else if c == 'M' then
      if s.yresSpecified || s.cvt || s.wasDigit then None else Some(s.(cvt := true))
    else if c == 'R' then
      if s.yresSpecified || s.cvt || s.rb || s.wasDigit then None else Some(s.(rb := true))
    else if c == 'm' then
      if s.cvt || s.yresSpecified || s.wasDigit then None else Some(s.(margins := true))
    else if c == 'i' then
      if s.cvt || s.yresSpecified || s.wasDigit then None else Some(s.(interlace := true))
    else if c == 'e' || c == 'D' || c == 'd' then
      if s.yresSpecified || s.bppSpecified || s.refreshSpecified || s.wasDigit || s.force != Unspecified then None
      else Some(s.(force := Forces(c, digital)))
    else None
  }

  /** `digital`: the connector is a DVI-I or HDMI-B connector. */
  function Forces(c: char, digital: bool): Force {
    if c == 'd' then Off else if c == 'D' && digital then OnDigital else On
  }

  /** The scan of `ahead`, from its last character to its first, when `behind` has been passed. */
  function Scan(ahead: string, behind: string, s: State, digital: bool): Option<State>
    decreases |ahead|
  {
    if ahead == "" then Some(s)
    else
      var c := ahead[|ahead| - 1];
      match Read(c, behind, s, digital)
      case None => None
      case Some(s') => Scan(ahead[..|ahead| - 1], [c] + behind, s', digital)
  }

  /** What the scan of the whole option leads to. */
  function Finish(option: string, s: State): Option<Cmdline> {
    var n := Digits(option);
    if s.yresSpecified && !(n < |option| && option[n] == 'x') then None
    else if !s.yresSpecified && s.wasDigit then None
    else
      var r := EMPTY.(rb := s.rb, cvt := s.cvt, interlace := s.interlace, margins := s.margins, force := s.force);
      var r1 := if s.yresSpecified then r.(specified := true, xres := Number(option), yres := s.yres) else r;
      var r2 := if s.refreshSpecified then r1.(refreshSpecified := true, refresh := s.refresh) else r1;
      Some(if s.bppSpecified then r2.(bppSpecified := true, bpp := s.bpp) else r2)
  }

  function Parse(option: string, digital: bool): Option<Cmdline> {
    match Scan(option, "", START, digital)
    case None => None
    case Some(s) => Finish(option, s)
  }

  // ---------------------------------------------------------------- what an option is made of

  datatype Item = Cvt | Reduced | Depth(digits: string) | Refresh(digits: string) | Interlace | Margins
                | Forced(letter: char)

  datatype Size = Size(xres: string, yres: string)

  datatype Written = Written(size: Option<Size>, items: seq<Item>)

  function ItemText(t: Item): string {
    match t
    case Cvt => "M"
    case Reduced => "R"
    case Depth(digits) => "-" + digits
    case Refresh(digits) => "@" + digits
    case Interlace => "i"
    case Margins => "m"
    case Forced(letter) => [letter]
  }

  function ItemsText(items: seq<Item>): string {
    if items == [] then "" else ItemText(items[0]) + ItemsText(items[1..])
  }

  function Text(w: Written): string {
    (if w.size.Some? then w.size.value.xres + "x" + w.size.value.yres else "") + ItemsText(w.items)
  }

  predicate IsNumber(s: string) {
    s != "" && AllDigits(s)
  }

  predicate IsItem(t: Item) {
    match t
    case Depth(digits) => IsNumber(digits)
    case Refresh(digits) => IsNumber(digits)
    case Forced(letter) => letter in {'e', 'D', 'd'}
    case _ => true
  }

  /** Item a may stand somewhere before item b. */
  predicate MayPrecede(a: Item, b: Item) {
    match a
    case Cvt => !b.Cvt?
    case Reduced => !b.Cvt? && !b.Reduced?
    case Depth(_) => !b.Cvt? && !b.Reduced? && !b.Depth?
    case Refresh(_) => !b.Cvt? && !b.Reduced? && !b.Depth? && !b.Refresh?
    case Interlace => !b.Cvt?
    case Margins => !b.Cvt?
    case Forced(_) => !b.Depth? && !b.Refresh? && !b.Forced?
  }

  ghost predicate InOrder(items: seq<Item>) {
    && (forall k :: 0 <= k < |items| ==> IsItem(items[k]))
    && (forall j, k :: 0 <= j < k < |items| ==> MayPrecede(items[j], items[k]))
  }

  /** What the parser accepts: the size may be missing, its width may be empty. */
  ghost predicate Acceptable(w: Written) {
    InOrder(w.items) && (w.size.Some? ==> AllDigits(w.size.value.xres) && IsNumber(w.size.value.yres))
  }

  /** The number of the first such item */
  function DepthOf(items: seq<Item>): Option<string> {
    if items == [] then None else if items[0].Depth? then Some(items[0].digits) else DepthOf(items[1..])
  }

  function RefreshOf(items: seq<Item>): Option<string> {
    if items == [] then None else if items[0].Refresh? then Some(items[0].digits) else RefreshOf(items[1..])
  }

  function ForceOf(items: seq<Item>): Option<char> {
    if items == [] then None else if items[0].Forced? then Some(items[0].letter) else ForceOf(items[1..])
  }

  lemma {:induction false} ItemsFound(items: seq<Item>)
    ensures DepthOf(items).Some? <==> exists k :: 0 <= k < |items| && items[k].Depth?
    ensures RefreshOf(items).Some? <==> exists k :: 0 <= k < |items| && items[k].Refresh?
    ensures ForceOf(items).Some? <==> exists k :: 0 <= k < |items| && items[k].Forced?
    ensures DepthOf(items).Some? ==> Depth(DepthOf(items).value) in items
    ensures RefreshOf(items).Some? ==> Refresh(RefreshOf(items).value) in items
    ensures ForceOf(items).Some? ==> Forced(ForceOf(items).value) in items
  {
    if items != [] {
      ItemsFound(items[1..]);
      assert forall k :: 0 < k < |items| ==> items[k] == items[1..][k - 1];
    }
  }

  /** A number as an unsigned int holds it; 0 if there is none. */
  function Held(number: Option<string>): nat {
    if number.Some? && AllDigits(number.value) then Value(number.value) % U32 else 0
  }

  function ForceIs(letter: Option<char>, digital: bool): Force {
    if letter.Some? then Forces(letter.value, digital) else Unspecified
  }

  /** What was written. */
  function Meaning(w: Written, digital: bool): Cmdline {
    var depth, refresh := DepthOf(w.items), RefreshOf(w.items);
    Cmdline(w.size.Some?, if w.size.Some? then Held(Some(w.size.value.xres)) else 0,
            if w.size.Some? then Held(Some(w.size.value.yres)) else 0,
            refresh.Some?, Held(refresh), depth.Some?, Held(depth),
            Reduced in w.items, Cvt in w.items, Interlace in w.items, Margins in w.items,
            ForceIs(ForceOf(w.items), digital))
  }

  // ---------------------------------------------------------------- scanning the items

  lemma ScanOne(ahead: string, c: char, behind: string, s: State, digital: bool)
    ensures Scan(ahead + [c], behind, s, digital) ==
              match Read(c, behind, s, digital)
              case None => None
              case Some(s') => Scan(ahead, [c] + behind, s', digital)
  {
    hide Read;
    assert (ahead + [c])[..|ahead|] == ahead;
  }

  lemma {:induction false} ScanDigits(ahead: string, digits: string, behind: string, s: State, digital: bool)
    requires AllDigits(digits)
    ensures Scan(ahead + digits, behind, s, digital)
            == Scan(ahead, digits + behind, if digits == "" then s else s.(wasDigit := true), digital)
    decreases |digits|
  {
    if digits == "" {
      assert ahead + digits == ahead && digits + behind == behind;
    } else {
      var last := |digits| - 1;
      var c := digits[last];
      assert ahead + digits == (ahead + digits[..last]) + [c];
      ScanOne(ahead + digits[..last], c, behind, s, digital);
      ScanDigits(ahead, digits[..last], [c] + behind, s.(wasDigit := true), digital);
      assert digits[..last] + ([c] + behind) == digits + behind;
    }
  }

  predicate LetterFirst(s: string) {
    s == "" || !IsDigit(s[0])
  }

  lemma {:induction false} DigitsOf(digits: string, rest: string)
    requires AllDigits(digits) && LetterFirst(rest)
    ensures Digits(digits + rest) == |digits|
  {
    if digits == "" {
      assert digits + rest == rest;
    } else {
      assert (digits + rest)[1..] == digits[1..] + rest;
      DigitsOf(digits[1..], rest);
    }
  }

  lemma NumberOf(digits: string, rest: string)
    requires AllDigits(digits) && LetterFirst(rest)
    ensures Digits(digits + rest) == |digits| && Number(digits + rest) == Held(Some(digits))
  {
    DigitsOf(digits, rest);
    assert (digits + rest)[..|digits|] == digits;
  }

  lemma ItemsBegin(items: seq<Item>)
    requires forall k :: 0 <= k < |items| ==> IsItem(items[k])
    ensures LetterFirst(ItemsText(items))
  {
    if items != [] {
      assert IsItem(items[0]);
      assert ItemsText(items)[0] == ItemText(items[0])[0];
    }
  }

  /** The state when the items have been read, last one first. */
  function After(items: seq<Item>, digital: bool): State {
    State(false, 0, DepthOf(items).Some?, if DepthOf(items).Some? then Held(DepthOf(items)) else 32,
          RefreshOf(items).Some?, Held(RefreshOf(items)), Cvt in items, Reduced in items,
          Interlace in items, Margins in items, ForceIs(ForceOf(items), digital), false)
  }

  /** How an item's own character changes the state, when its digits have been read. */
  function ItemSign(t: Item): char {
    ItemText(t)[0]
  }

  function ItemDigits(t: Item): string {
    ItemText(t)[1..]
  }

  lemma SignedDigits(t: Item)
    requires IsItem(t)
    ensures ItemText(t) == [ItemSign(t)] + ItemDigits(t) && AllDigits(ItemDigits(t)) && !IsDigit(ItemSign(t))
    ensures ItemDigits(t) != "" <==> t.Depth? || t.Refresh?
    ensures t.Depth? || t.Refresh? ==> ItemDigits(t) == t.digits
  {
  }

  /** No item that has been read forbids t. */
  predicate Clear(t: Item, s: State) {
    match t
    case Cvt => !s.cvt
    case Reduced => !s.cvt && !s.rb
    case Depth(_) => !s.cvt && !s.rb && !s.bppSpecified
    case Refresh(_) => !s.cvt && !s.rb && !s.bppSpecified && !s.refreshSpecified
    case Interlace => !s.cvt
    case Margins => !s.cvt
    case Forced(_) => !s.bppSpecified && !s.refreshSpecified && s.force == Unspecified
  }

  function WithItem(t: Item, s: State, digital: bool): State {
    match t
    case Cvt => s.(cvt := true)
    case Reduced => s.(rb := true)
    case Depth(digits) => s.(bppSpecified := true, bpp := Held(Some(digits)))
    case Refresh(digits) => s.(refreshSpecified := true, refresh := Held(Some(digits)))
    case Interlace => s.(interlace := true)
    case Margins => s.(margins := true)
    case Forced(letter) => s.(force := Forces(letter, digital))
  }

  lemma ClearIs(t: Item, items: seq<Item>, digital: bool)
    ensures Clear(t, After(items, digital)) <==> forall k :: 0 <= k < |items| ==> MayPrecede(t, items[k])
  {
    hide Held;
    ItemsFound(items);
  }

  lemma AfterCons(t: Item, items: seq<Item>, digital: bool)
    ensures After([t] + items, digital) == WithItem(t, After(items, digital), digital)
  {
    hide Held;
    assert ([t] + items)[1..] == items;
    assert forall x :: x in [t] + items <==> x == t || x in items;
  }

  /** An item's sign is read if and only if no item behind it forbids it. */
  lemma ReadSign(t: Item, behind: string, s: State, digital: bool)
    requires IsItem(t) && !s.yresSpecified && !s.wasDigit
    requires t.Depth? || t.Refresh? ==> Number(behind) == Held(Some(t.digits))
    ensures Read(ItemSign(t), behind, s.(wasDigit := t.Depth? || t.Refresh?), digital)
            == if Clear(t, s) then Some(WithItem(t, s, digital)) else None
  {
    hide Number, Held;
    if t.Forced? {
      ReadForced(t, behind, s, digital);
    }
  }

  lemma ReadForced(t: Item, behind: string, s: State, digital: bool)
    requires t.Forced? && IsItem(t) && !s.yresSpecified && !s.wasDigit
    ensures Read(ItemSign(t), behind, s, digital) == if Clear(t, s) then Some(WithItem(t, s, digital)) else None
    ensures s.(wasDigit := false) == s
  {
    hide Number, Held;
  }

  lemma ScanSigned(ahead: string, t: Item, behind: string, s: State, digital: bool)
    requires IsItem(t) && !s.wasDigit
    ensures Scan(ahead + ItemText(t), behind, s, digital) ==
              match Read(ItemSign(t), ItemDigits(t) + behind, s.(wasDigit := ItemDigits(t) != ""), digital)
              case None => None
              case Some(s') => Scan(ahead, ItemText(t) + behind, s', digital)
  {
    hide Scan, Read, ItemText, ItemSign, ItemDigits, IsItem;
    var c, digits := ItemSign(t), ItemDigits(t);
    SignedDigits(t);
    assert ahead + ([c] + digits) == (ahead + [c]) + digits;
    ScanDigits(ahead + [c], digits, behind, s, digital);
    ScanOne(ahead, c, digits + behind, s.(wasDigit := digits != ""), digital);
    assert [c] + (digits + behind) == ([c] + digits) + behind;
  }

  /** One item more: it is accepted if and only if it may precede all the items behind it. */
  lemma ScanItem(ahead: string, t: Item, items: seq<Item>, digital: bool)
    requires IsItem(t) && InOrder(items)
    ensures Scan(ahead + ItemText(t), ItemsText(items), After(items, digital), digital)
            == if InOrder([t] + items) then
                 Scan(ahead, ItemsText([t] + items), After([t] + items, digital), digital)
               else None
  {
    hide Scan, Read, Held, InOrder, MayPrecede, After, ItemText, ItemsText, ItemSign, ItemDigits, Clear, WithItem,
         IsItem, Number;
    var s, behind := After(items, digital), ItemsText(items);
    StateForm(items, digital);
    SignedDigits(t);
    ItemsOf(items);
    ItemsBegin(items);
    NumberOf(ItemDigits(t), behind);
    ScanSigned(ahead, t, behind, s, digital);
    ReadSign(t, ItemDigits(t) + behind, s, digital);
    Ordered(t, items);
    ClearIs(t, items, digital);
    AfterCons(t, items, digital);
    ConsText(t, items);
  }

  lemma StateForm(items: seq<Item>, digital: bool)
    ensures var s := After(items, digital); !s.yresSpecified && !s.wasDigit && s == s.(wasDigit := false)
  {
  }

  lemma ItemsOf(items: seq<Item>)
    requires InOrder(items)
    ensures forall k :: 0 <= k < |items| ==> IsItem(items[k])
  {
  }

  lemma Ordered(t: Item, items: seq<Item>)
    requires IsItem(t) && InOrder(items)
    ensures InOrder([t] + items) <==> forall k :: 0 <= k < |items| ==> MayPrecede(t, items[k])
  {
    hide MayPrecede, IsItem;
    var all := [t] + items;
    assert forall k :: 0 <= k < |items| ==> all[k + 1] == items[k];
    assert forall k :: 0 < k < |all| ==> all[k] == items[k - 1];
    if InOrder(all) {
      forall k | 0 <= k < |items|
        ensures MayPrecede(t, items[k])
      {
        assert MayPrecede(all[0], all[k + 1]);
      }
    }
  }

  lemma OrderedTail(items: seq<Item>)
    requires InOrder(items) && items != []
    ensures IsItem(items[0]) && InOrder(items[1..]) && [items[0]] + items[1..] == items
  {
    hide MayPrecede, IsItem;
    assert forall k :: 0 <= k < |items[1..]| ==> items[1..][k] == items[k + 1];
  }

  /** Items in order are read to their end. */
  lemma {:induction false} ScanItems(ahead: string, items: seq<Item>, digital: bool)
    requires InOrder(items)
    ensures Scan(ahead + ItemsText(items), "", START, digital)
            == Scan(ahead, ItemsText(items), After(items, digital), digital)
    decreases |items|
  {
    hide InOrder, Scan, ItemText, After;
    if items == [] {
      Nothing(digital);
      assert ahead + "" == ahead;
    } else {
      OrderedTail(items);
      var t, rest := items[0], items[1..];
      assert ahead + ItemsText(items) == (ahead + ItemText(t)) + ItemsText(rest);
      ScanItems(ahead + ItemText(t), rest, digital);
      ScanItem(ahead, t, rest, digital);
    }
  }

  // ---------------------------------------------------------------- the size

  function Sized(s: State, yres: string): State {
    s.(yresSpecified := true, yres := Held(Some(yres)), wasDigit := true)
  }

  /** Up to the 'x' inclusive */
  lemma ScanYres(ahead: string, yres: string, behind: string, s: State, digital: bool)
    requires IsNumber(yres) && LetterFirst(behind) && !s.yresSpecified
    ensures Scan((ahead + "x") + yres, behind, s, digital)
            == Scan(ahead, "x" + (yres + behind), Sized(s, yres), digital)
  {
    hide Scan, Number, Held;
    ScanDigits(ahead + "x", yres, behind, s, digital);
    NumberOf(yres, behind);
    ScanOne(ahead, 'x', yres + behind, s.(wasDigit := true), digital);
  }

  lemma ScanXres(xres: string, behind: string, s: State, digital: bool)
    requires AllDigits(xres) && s.wasDigit
    ensures Scan(xres, behind, s, digital) == Some(s)
  {
    assert "" + xres == xres;
    ScanDigits("", xres, behind, s, digital);
  }

  /** In front of the 'x' there is nothing but digits. */
  lemma {:induction false} OnlyDigits(ahead: string, behind: string, s: State, digital: bool)
    requires s.yresSpecified && s.wasDigit && Scan(ahead, behind, s, digital).Some?
    ensures AllDigits(ahead)
    decreases |ahead|
  {
    if ahead != "" {
      var last := |ahead| - 1;
      OnlyDigits(ahead[..last], [ahead[last]] + behind, s, digital);
      assert ahead == ahead[..last] + [ahead[last]];
    }
  }

  // ---------------------------------------------------------------- what is accepted, and what it means

  lemma ScanText(w: Written, digital: bool)
    requires Acceptable(w)
    ensures Scan(Text(w), "", START, digital)
            == Some(if w.size.Some? then Sized(After(w.items, digital), w.size.value.yres) else After(w.items, digital))
  {
    hide Scan, ItemsText, After, InOrder, IsNumber, Sized;
    var behind := ItemsText(w.items);
    ItemsOf(w.items);
    ItemsBegin(w.items);
    StateForm(w.items, digital);
    if w.size.Some? {
      var xres, yres := w.size.value.xres, w.size.value.yres;
      ScanItems((xres + "x") + yres, w.items, digital);
      ScanYres(xres, yres, behind, After(w.items, digital), digital);
      SizedForm(After(w.items, digital), yres);
      ScanXres(xres, "x" + (yres + behind), Sized(After(w.items, digital), yres), digital);
    } else {
      ScanItems("", w.items, digital);
      ScanNothing(behind, After(w.items, digital), digital);
    }
  }

  lemma SizedForm(s: State, yres: string)
    ensures Sized(s, yres).wasDigit && Sized(s, yres).yresSpecified
  {
  }

  lemma ScanNothing(behind: string, s: State, digital: bool)
    ensures Scan("", behind, s, digital) == Some(s)
  {
  }

  /** The width is the number the option begins with. */
  lemma TextBegins(w: Written)
    requires Acceptable(w) && w.size.Some?
    ensures var n := |w.size.value.xres|;
            && Digits(Text(w)) == n < |Text(w)| && Text(w)[n] == 'x'
            && Number(Text(w)) == Held(Some(w.size.value.xres))
  {
    hide ItemsText, InOrder, Held, Number, Digits;
    var xres, yres := w.size.value.xres, w.size.value.yres;
    var rest := "x" + yres + ItemsText(w.items);
    assert Text(w) == xres + rest;
    NumberOf(xres, rest);
  }

  /** What is written in an acceptable way is accepted and means what was written. */
  lemma ParseText(w: Written, digital: bool)
    requires Acceptable(w)
    ensures Parse(Text(w), digital) == Some(Meaning(w, digital))
  {
    hide Scan, Text, Number, Digits, Value, DepthOf, RefreshOf, ForceOf, InOrder, Acceptable;
    ScanText(w, digital);
    if w.size.Some? {
      TextBegins(w);
    }
  }

  /** The item that ends the digits read last, if c begins one. */
  function ItemAt(c: char, digits: string): Option<Item> {
    if c == '@' then Some(Refresh(digits))
    else if c == '-' then Some(Depth(digits))
    else if c == 'M' then Some(Cvt)
    else if c == 'R' then Some(Reduced)
    else if c == 'm' then Some(Margins)
    else if c == 'i' then Some(Interlace)
    else if c == 'e' || c == 'D' || c == 'd' then Some(Forced(c))
    else None
  }

  lemma ReadsItem(c: char, digits: string, behind: string, s: State, digital: bool)
    requires Read(c, behind, s, digital).Some? && !IsDigit(c) && c != 'x'
    requires s.wasDigit == (digits != "") && AllDigits(digits)
    ensures var t := ItemAt(c, digits); t.Some? && IsItem(t.value) && ItemText(t.value) == [c] + digits
  {
    hide Number;
  }

  function Seen(items: seq<Item>, digits: string, digital: bool): State {
    After(items, digital).(wasDigit := digits != "")
  }

  lemma DigitSeen(front: string, c: char, digits: string, items: seq<Item>, digital: bool)
    requires IsDigit(c)
    ensures Scan(front + [c], digits + ItemsText(items), Seen(items, digits, digital), digital)
            == Scan(front, ([c] + digits) + ItemsText(items), Seen(items, [c] + digits, digital), digital)
  {
    hide Scan, Read, ItemsText, After;
    ScanOne(front, c, digits + ItemsText(items), Seen(items, digits, digital), digital);
    ReadsDigit(c, digits + ItemsText(items), Seen(items, digits, digital), digital);
    assert [c] + (digits + ItemsText(items)) == ([c] + digits) + ItemsText(items);
  }

  lemma ItemSeen(front: string, c: char, digits: string, items: seq<Item>, digital: bool) returns (t: Item)
    requires InOrder(items) && AllDigits(digits) && !IsDigit(c) && c != 'x'
    requires Scan(front + [c], digits + ItemsText(items), Seen(items, digits, digital), digital).Some?
    ensures InOrder([t] + items) && ItemText(t) == [c] + digits
    ensures Scan(front + [c], digits + ItemsText(items), Seen(items, digits, digital), digital)
            == Scan(front, "" + ItemsText([t] + items), Seen([t] + items, "", digital), digital)
  {
    hide Scan, Read, InOrder, After, ItemsText;
    var behind, s := ItemsText(items), Seen(items, digits, digital);
    ScanOne(front, c, digits + behind, s, digital);
    ReadsItem(c, digits, digits + behind, s, digital);
    t := ItemAt(c, digits).value;
    hide ItemAt, ItemText;
    assert (front + [c]) + digits == front + ([c] + digits);
    StateForm(items, digital);
    ScanDigits(front + [c], digits, behind, After(items, digital), digital);
    ScanItem(front, t, items, digital);
    StateForm([t] + items, digital);
    assert "" + ItemsText([t] + items) == ItemsText([t] + items);
  }

  /** Behind `ahead` the parser has seen digits and, behind them, items in order.  If it goes on to accept
      the option, the rest of it is well-formed too. */
  lemma {:induction false} AcceptedText(ahead: string, digits: string, items: seq<Item>, digital: bool)
    returns (w: Written)
    requires InOrder(items) && AllDigits(digits)
    requires var r := Scan(ahead, digits + ItemsText(items), Seen(items, digits, digital), digital);
             r.Some? && (r.value.yresSpecified || !r.value.wasDigit)
    ensures Acceptable(w) && Text(w) == ahead + digits + ItemsText(items)
    decreases |ahead|
  {
    hide Scan, Read, InOrder, Seen, ItemsText, ItemText, AllDigits;
    if ahead == "" {
      w := AllSeen(digits, items, digital);
    } else {
      var front, c := ahead[..|ahead| - 1], ahead[|ahead| - 1];
      assert ahead == front + [c];
      if IsDigit(c) {
        DigitSeen(front, c, digits, items, digital);
        OneDigitMore(c, digits);
        w := AcceptedText(front, [c] + digits, items, digital);
        assert front + ([c] + digits) == ahead + digits;
      } else if c == 'x' {
        w := AcceptedSize(front, digits, items, digital);
        assert front + "x" == ahead;
      } else {
        var t := ItemSeen(front, c, digits, items, digital);
        NoWidth();
        w := AcceptedText(front, "", [t] + items, digital);
        ConsText(t, items);
        assert front + "" == front;
        assert front + (([c] + digits) + ItemsText(items)) == ahead + digits + ItemsText(items);
      }
    }
  }

  lemma OneDigitMore(c: char, digits: string)
    requires IsDigit(c) && AllDigits(digits)
    ensures AllDigits([c] + digits)
  {
  }

  lemma AllSeen(digits: string, items: seq<Item>, digital: bool) returns (w: Written)
    requires InOrder(items)
    requires var r := Scan("", digits + ItemsText(items), Seen(items, digits, digital), digital);
             r.Some? && (r.value.yresSpecified || !r.value.wasDigit)
    ensures Acceptable(w) && Text(w) == "" + digits + ItemsText(items)
  {
    hide InOrder, ItemsText;
    w := Written(None, items);
    assert "" + digits == digits;
    assert digits == "";
  }

  lemma ConsText(t: Item, items: seq<Item>)
    ensures ItemsText([t] + items) == ItemText(t) + ItemsText(items)
  {
    assert ([t] + items)[1..] == items;
  }

  lemma ReadsDigit(c: char, behind: string, s: State, digital: bool)
    requires IsDigit(c)
    ensures Read(c, behind, s, digital) == Some(s.(wasDigit := true))
  {
  }

  lemma AcceptedSize(front: string, digits: string, items: seq<Item>, digital: bool) returns (w: Written)
    requires InOrder(items) && AllDigits(digits)
    requires Scan(front + ['x'], digits + ItemsText(items), Seen(items, digits, digital), digital).Some?
    ensures Acceptable(w) && Text(w) == front + "x" + digits + ItemsText(items)
  {
    hide Scan, InOrder, After, ItemsText, Number;
    var s := Seen(items, digits, digital);
    ScanOne(front, 'x', digits + ItemsText(items), s, digital);
    var r := Read('x', digits + ItemsText(items), s, digital);
    OnlyDigits(front, ['x'] + (digits + ItemsText(items)), r.value, digital);
    w := Written(Some(Size(front, digits)), items);
  }

  /** The language of the parser: exactly the texts of the acceptable options. */
  lemma AcceptedExactly(option: string, digital: bool)
    ensures Parse(option, digital).Some? <==> exists w :: Acceptable(w) && Text(w) == option
  {
    hide Scan, Acceptable, Text, InOrder, Digits, Number;
    if Parse(option, digital).Some? {
      Nothing(digital);
      assert "" + ItemsText([]) == "";
      assert option + "" + ItemsText([]) == option;
      var w := AcceptedText(option, "", [], digital);
    }
    forall w | Acceptable(w) && Text(w) == option
      ensures Parse(option, digital).Some?
    {
      ParseText(w, digital);
    }
  }

  lemma Nothing(digital: bool)
    ensures InOrder([]) && After([], digital) == START && AllDigits("") && ItemsText([]) == ""
  {
  }

  // ---------------------------------------------------------------- the documented form

  function Rank(t: Item): nat {
    match t
    case Cvt => 0
    case Reduced => 1
    case Depth(_) => 2
    case Refresh(_) => 3
    case Interlace => 4
    case Margins => 5
    case Forced(_) => 6
  }

  predicate InRange(s: string) {
    IsNumber(s) && Value(s) < U32
  }

  /** <xres>x<yres>[M][R][-<bpp>][@<refresh>][i][m][eDd], with numbers that fit. */
  ghost predicate Documented(w: Written) {
    && w.size.Some? && InRange(w.size.value.xres) && InRange(w.size.value.yres)
    && (forall j, k :: 0 <= j < k < |w.items| ==> Rank(w.items[j]) < Rank(w.items[k]))
    && (forall k :: 0 <= k < |w.items| ==> IsItem(w.items[k]))
    && (forall k :: 0 <= k < |w.items| && (w.items[k].Depth? || w.items[k].Refresh?) ==> InRange(w.items[k].digits))
  }

  /** Every option of the documented form is accepted and means exactly what was written. */
  lemma ParseDocumented(w: Written, digital: bool)
    requires Documented(w)
    ensures var r := Parse(Text(w), digital);
            && r == Some(Meaning(w, digital))
            && r.value.specified && r.value.xres == Value(w.size.value.xres) && r.value.yres == Value(w.size.value.yres)
            && (forall n :: Depth(n) in w.items ==>
                  r.value.bppSpecified && AllDigits(n) && r.value.bpp == Value(n))
            && (forall n :: Refresh(n) in w.items ==>
                  r.value.refreshSpecified && AllDigits(n) && r.value.refresh == Value(n))
  {
    hide Text, Parse, Value, AllDigits;
    forall j, k | 0 <= j < k < |w.items|
      ensures MayPrecede(w.items[j], w.items[k])
    {
      assert Rank(w.items[j]) < Rank(w.items[k]);
    }
    ParseText(w, digital);
    forall n | Depth(n) in w.items
      ensures DepthOf(w.items) == Some(n) && InRange(n)
    {
      OnlyDepth(w, n);
    }
    forall n | Refresh(n) in w.items
      ensures RefreshOf(w.items) == Some(n) && InRange(n)
    {
      OnlyRefresh(w, n);
    }
  }

  lemma SameRank(w: Written, j: nat, k: nat)
    requires Documented(w) && j < |w.items| && k < |w.items| && Rank(w.items[j]) == Rank(w.items[k])
    ensures j == k
  {
    hide InRange, IsItem, Rank;
  }

  lemma OnlyDepth(w: Written, n: string)
    requires Documented(w) && Depth(n) in w.items
    ensures DepthOf(w.items) == Some(n) && InRange(n)
  {
    hide InRange, IsItem, DepthOf;
    ItemsFound(w.items);
    var j :| 0 <= j < |w.items| && w.items[j] == Depth(n);
    var k :| 0 <= k < |w.items| && w.items[k] == Depth(DepthOf(w.items).value);
    SameRank(w, j, k);
  }

  lemma OnlyRefresh(w: Written, n: string)
    requires Documented(w) && Refresh(n) in w.items
    ensures RefreshOf(w.items) == Some(n) && InRange(n)
  {
    hide InRange, IsItem, RefreshOf;
    ItemsFound(w.items);
    var j :| 0 <= j < |w.items| && w.items[j] == Refresh(n);
    var k :| 0 <= k < |w.items| && w.items[k] == Refresh(RefreshOf(w.items).value);
    SameRank(w, j, k);
  }

  /** Beyond the documented form: an option without a width is taken for a mode 0 pixels wide. */
  lemma WidthMayBeMissing(yres: string, digital: bool)
    requires IsNumber(yres)
    ensures var r := Parse("x" + yres, digital); r.Some? && r.value.specified && r.value.xres == 0
  {
    var w := Written(Some(Size("", yres)), []);
    hide Text, Parse, Value, AllDigits;
    NoWidth();
    SizeOnly(yres);
    ParseText(w, digital);
  }

  lemma SizeOnly(yres: string)
    ensures Text(Written(Some(Size("", yres)), [])) == "x" + yres
  {
    assert "" + "x" + yres + "" == "x" + yres;
  }

  lemma NoWidth()
    ensures AllDigits("") && Held(Some("")) == 0
  {
  }

  // ---------------------------------------------------------------- the loop

  method ParseNumber(s: string) returns (n: nat, digits: nat)
    ensures digits == Digits(s) && n == Number(s)
  {
    digits := 0;
    n := 0;
    while digits < |s| && IsDigit(s[digits])
      invariant digits <= |s| && AllDigits(s[..digits])
      invariant n == Value(s[..digits])
    {
      assert s[..digits + 1][..digits] == s[..digits];
      n := 10 * n + (s[digits] - '0') as nat;
      digits := digits + 1;
    }
    DigitsAre(s, digits);
    n := n % U32;
  }

  lemma {:induction false} DigitsAre(s: string, n: nat)
    requires n <= |s| && AllDigits(s[..n]) && (n < |s| ==> !IsDigit(s[n]))
    ensures Digits(s) == n
  {
    assert s == s[..n] + s[n..];
    DigitsOf(s[..n], s[n..]);
  }

  /** The switch on one character; s holds the loop's variables. */
  method ReadChar(c: char, behind: string, s: State, digital: bool) returns (r: Option<State>)
    ensures r == Read(c, behind, s, digital)
  {
    hide Number, Digits;
    r := None;
    if c == '@' {
      if !s.refreshSpecified && !s.bppSpecified && !s.yresSpecified && !s.cvt && !s.rb && s.wasDigit {
        var refresh, _ := ParseNumber(behind);
        r := Some(s.(refresh := refresh, refreshSpecified := true, wasDigit := false));
      }
    } else if c == '-' {
      if !s.bppSpecified && !s.yresSpecified && !s.cvt && !s.rb && s.wasDigit {
        var bpp, _ := ParseNumber(behind);
        r := Some(s.(bpp := bpp, bppSpecified := true, wasDigit := false));
      }
    } else if c == 'x' {
      if !s.yresSpecified && s.wasDigit {
        var yres, _ := ParseNumber(behind);
        r := Some(s.(yres := yres, yresSpecified := true, wasDigit := true));
      }
    } else if IsDigit(c) {
      r := Some(s.(wasDigit := true));
    } else {
      r := ReadLetter(c, s, digital);
    }
  }

  method ReadLetter(c: char, s: State, digital: bool) returns (r: Option<State>)
    requires c != '@' && c != '-' && c != 'x' && !IsDigit(c)
    ensures forall behind :: r == Read(c, behind, s, digital)
  {
    hide Number;
    r := None;
    if c == 'M' {
      if !(s.yresSpecified || s.cvt || s.wasDigit) {
        r := Some(s.(cvt := true));
      }
    } else if c == 'R' {
      if !(s.yresSpecified || s.cvt || s.rb || s.wasDigit) {
        r := Some(s.(rb := true));
      }
    } else if c == 'm' {
      if !(s.cvt || s.yresSpecified || s.wasDigit) {
        r := Some(s.(margins := true));
      }
    } else if c == 'i' {
      if !(s.cvt || s.yresSpecified || s.wasDigit) {
        r := Some(s.(interlace := true));
      }
    } else if c == 'e' || c == 'D' || c == 'd' {
      if !(s.yresSpecified || s.bppSpecified || s.refreshSpecified || s.wasDigit || s.force != Unspecified) {
        r := Some(s.(force := if c == 'd' then Off else if c == 'D' && digital then OnDigital else On));
      }
    }
  }

  /** drm_mode_parse_command_line_for_connector */
  method ParseCommandLine(option: string, digital: bool) returns (r: Option<Cmdline>)
    ensures r == Parse(option, digital)
  {
    hide Number, Digits, Scan, Finish, Read;
    var s := START;
    var i := |option|;
    assert option[..i] == option && option[i..] == "";
    while i > 0
      invariant i <= |option|
      invariant Scan(option, "", START, digital) == Scan(option[..i], option[i..], s, digital)
    {
      ScanStep(option, i, s, digital);
      i := i - 1;
      var next := ReadChar(option[i], option[i + 1..], s, digital);
      if next.None? {
        return None;
      }
      s := next.value;
    }
    ScanDone(option, s, digital);
    r := FinishScan(option, s);
  }

  lemma ScanStep(option: string, i: nat, s: State, digital: bool)
    requires 0 < i <= |option|
    ensures Scan(option[..i], option[i..], s, digital) ==
              match Read(option[i - 1], option[i..], s, digital)
              case None => None
              case Some(s') => Scan(option[..i - 1], option[i - 1..], s', digital)
  {
    hide Read;
    assert option[..i][..i - 1] == option[..i - 1];
    assert [option[i - 1]] + option[i..] == option[i - 1..];
  }

  lemma ScanDone(option: string, s: State, digital: bool)
    ensures Scan(option[..0], option[0..], s, digital) == Some(s)
  {
  }

  /** After the loop: the width is read from the front, and must end at an 'x'. */
  method FinishScan(option: string, s: State) returns (r: Option<Cmdline>)
    ensures r == Finish(option, s)
  {
    hide Number, Digits;
    var mode := EMPTY.(rb := s.rb, cvt := s.cvt, interlace := s.interlace, margins := s.margins, force := s.force);
    if s.yresSpecified {
      var xres, end := ParseNumber(option);
      if !(end < |option| && option[end] == 'x') {
        return None;
      }
      mode := mode.(specified := true, xres := xres, yres := s.yres);
    } else if s.wasDigit {
      return None;
    }
    if s.refreshSpecified {
      mode := mode.(refreshSpecified := true, refresh := s.refresh);
    }
    if s.bppSpecified {
      mode := mode.(bppSpecified := true, bpp := s.bpp);
    }
    return Some(mode);
  }
}
