/** The checkout hand-off: a cart snapshot becomes a detailed or a quick
    order message, and the message is percent-encoded into a WhatsApp deep
    link. */
module WhatsApp {
  import opened Wrappers
  import Text
  import UriComponent
  import opened Catalog

  /** One cart line: a product and how many of it are ordered. */
  datatype CartItem = CartItem(product: Product, quantity: int)

  /** The input of the detailed message; the two optional fields may be
      missing or empty. */
  datatype OrderDetails = OrderDetails(
    items: seq<CartItem>,
    customerName: Option<string>,
    shippingAddress: Option<string>)

  /** The destination number: country code and number, digits only. */
  const WhatsAppNumber := "1234567890"

  // ---------------------------------------------------------------------
  // Amounts

  function Subtotal(item: CartItem): int {
    item.product.price * item.quantity
  }

  /** The sum of the subtotals of the items. */
  function SumSubtotals(items: seq<CartItem>): int {
    if |items| == 0 then 0 else Subtotal(items[0]) + SumSubtotals(items[1..])
  }

  /** `items.reduce((sum, item) => sum + price * quantity, acc)`, the left
      fold the formatter computes its total with. */
  function ReduceTotal(items: seq<CartItem>, acc: int): int {
    if |items| == 0 then acc else ReduceTotal(items[1..], acc + Subtotal(items[0]))
  }

  /** The formatter's total is the sum of the subtotals: it is recomputed
      from the items, not passed in. */
  lemma {:induction false} ReduceTotalIsSum(items: seq<CartItem>, acc: int)
    ensures ReduceTotal(items, acc) == acc + SumSubtotals(items)
    decreases |items|
  {
    if |items| > 0 {
      ReduceTotalIsSum(items[1..], acc + Subtotal(items[0]));
    }
  }

  // ---------------------------------------------------------------------
  // Detailed order message

  /** A string field counts as given when present and non-empty. */
  predicate IsGiven(field: Option<string>) {
    field.Some? && |field.value| > 0
  }

  /** Line `index + 1` of the item list: "<n>. <name> x<quantity> - $<subtotal>". */
  function ItemLine(index: nat, item: CartItem): string {
    Text.NatToDecimal(index + 1) + ". " + item.product.name +
    " x" + Text.IntToString(item.quantity) + " - $" + Text.Fixed2(Subtotal(item))
  }

  function ItemLines(items: seq<CartItem>): (lines: seq<string>)
    ensures |lines| == |items|
  {
    seq(|items|, i requires 0 <= i < |items| => ItemLine(i, items[i]))
  }

  const HeaderLine := "\U{1F6D2} *New Order from Shoaib*"
  const OrderHeader := HeaderLine + "\n\n"
  const DetailsLine := "*Order Details:*"
  const CustomerLabel := "*Customer:* "
  const ShippingLabel := "*Shipping Address:* "
  // The longer fixed texts are written as a few shorter phrases joined
  // together; the text is the same as the single literal.
  const ConfirmLine := "Please confirm this order" + " and provide payment details."
  const ConfirmationFooter := "\n---\n" + ConfirmLine

  /** `formatOrderMessage`: the header, the numbered item list, the total
      the items add up to, the customer and shipping lines when given, and
      the footer, appended in that order. */
  function FormatOrderMessage(d: OrderDetails): string {
    var itemsList := Text.Join(ItemLines(d.items), "\n");
    var total := Text.Fixed2(ReduceTotal(d.items, 0));
    var m0 := OrderHeader;
    var m1 := m0 + (DetailsLine + "\n" + itemsList + "\n\n");
    var m2 := m1 + ("*Total: $" + total + "*\n\n");
    var m3 := m2 + LabelledLine(CustomerLabel, d.customerName);
    var m4 := m3 + LabelledLine(ShippingLabel, d.shippingAddress);
    m4 + ConfirmationFooter
  }

  /** The labelled line of an optional field and its newline, appended only
      when the field is given. */
  function LabelledLine(tag: string, field: Option<string>): string {
    if IsGiven(field) then tag + field.value + "\n" else ""
  }

  /** The total line, showing the sum of the subtotals. */
  function TotalLine(items: seq<CartItem>): string {
    "*Total: $" + Text.Fixed2(SumSubtotals(items)) + "*"
  }

  /** The item list as lines; an empty cart leaves one empty line. */
  function ItemBlock(items: seq<CartItem>): seq<string> {
    if |items| == 0 then [""] else ItemLines(items)
  }

  function CustomerLines(d: OrderDetails): seq<string> {
    if IsGiven(d.customerName) then [CustomerLabel + d.customerName.value] else []
  }

  function ShippingLines(d: OrderDetails): seq<string> {
    if IsGiven(d.shippingAddress) then [ShippingLabel + d.shippingAddress.value] else []
  }

  const FooterLines := ["", "---", ConfirmLine]

  /** The detailed message read line by line. */
  function MessageLines(d: OrderDetails): seq<string> {
    [HeaderLine, "", DetailsLine] +
    (ItemBlock(d.items) +
    (["", TotalLine(d.items), ""] +
    (CustomerLines(d) + ShippingLines(d) + FooterLines)))
  }

  lemma JoinOptional(opt: seq<string>, rest: seq<string>, sep: string)
    requires |opt| <= 1 && |rest| > 0
    ensures Text.Join(opt + rest, sep) == (if |opt| == 1 then opt[0] + sep else "") + Text.Join(rest, sep)
  {
    if |opt| == 1 {
      Text.JoinAppend(opt, rest, sep);
    } else {
      assert opt + rest == rest;
    }
  }

  /** The optional customer or shipping text: its line and a newline, or nothing. */
  function OptionalPart(lines: seq<string>): string {
    if |lines| == 1 then lines[0] + "\n" else ""
  }

  /** Joining the message's line layout by newlines, whatever the lines
      hold: the nested form of the join. */
  lemma JoinLayout(h: string, dl: string, b: seq<string>, tl: string, cs: seq<string>, ss: seq<string>,
                   dash: string, conf: string)
    requires |b| > 0 && |cs| <= 1 && |ss| <= 1
    ensures Text.Join([h, "", dl] + (b + (["", tl, ""] + (cs + ss + ["", dash, conf]))), "\n") ==
      (h + "\n" + "" + "\n" + dl) + "\n" + (Text.Join(b, "\n") + "\n" +
      (("" + "\n" + tl + "\n" + "") + "\n" + (OptionalPart(cs) + (OptionalPart(ss) + ("" + "\n" + dash + "\n" + conf)))))
  {
    var a := [h, "", dl];
    var c := ["", tl, ""];
    var f := ["", dash, conf];
    var o := cs + (ss + f);
    Text.Join3(h, "", dl, "\n");
    Text.Join3("", tl, "", "\n");
    Text.Join3("", dash, conf, "\n");
    JoinOptional(ss, f, "\n");
    JoinOptional(cs, ss + f, "\n");
    Text.JoinAppend(c, o, "\n");
    Text.JoinAppend(b, c + o, "\n");
    Text.JoinAppend(a, b + (c + o), "\n");
    assert cs + ss + f == o;
  }

  /** The two ways the message text is put together agree, whatever the
      pieces are. */
  lemma Regroup(h: string, dl: string, list: string, amount: string, cp: string, sp: string, conf: string)
    ensures (h + "\n" + "" + "\n" + dl) + "\n" + (list + "\n" +
      (("" + "\n" + ("*Total: $" + amount + "*") + "\n" + "") + "\n" + (cp + (sp + ("" + "\n" + "---" + "\n" + conf)))))
         == (h + "\n\n") + (dl + "\n" + list + "\n\n") + ("*Total: $" + amount + "*\n\n") + cp + sp + ("\n---\n" + conf)
  {
  }

  /** The optional customer and shipping lines of the layout are the
      labelled lines the message appends. */
  lemma OptionalLines(d: OrderDetails)
    ensures OptionalPart(CustomerLines(d)) == LabelledLine(CustomerLabel, d.customerName)
    ensures OptionalPart(ShippingLines(d)) == LabelledLine(ShippingLabel, d.shippingAddress)
  {
  }

  /** The message text with the total read as the sum of the subtotals. */
  lemma AssembledMessage(d: OrderDetails)
    ensures FormatOrderMessage(d) ==
      OrderHeader + (DetailsLine + "\n" + Text.Join(ItemLines(d.items), "\n") + "\n\n") +
      ("*Total: $" + Text.Fixed2(SumSubtotals(d.items)) + "*\n\n") +
      LabelledLine(CustomerLabel, d.customerName) + LabelledLine(ShippingLabel, d.shippingAddress) +
      ConfirmationFooter
  {
    ReduceTotalIsSum(d.items, 0);
  }

  /** Joining the item block gives the item list text, also for an empty cart. */
  lemma ItemBlockJoin(items: seq<CartItem>)
    ensures Text.Join(ItemBlock(items), "\n") == Text.Join(ItemLines(items), "\n")
  {
  }

  /** The message is its lines joined by newlines. */
  lemma MessageIsItsLines(d: OrderDetails)
    ensures FormatOrderMessage(d) == Text.Join(MessageLines(d), "\n")
  {
    AssembledMessage(d);
    ItemBlockJoin(d.items);
    JoinLayout(HeaderLine, DetailsLine, ItemBlock(d.items), TotalLine(d.items),
      CustomerLines(d), ShippingLines(d), "---", ConfirmLine);
    OptionalLines(d);
    Regroup(HeaderLine, DetailsLine, Text.Join(ItemLines(d.items), "\n"), Text.Fixed2(SumSubtotals(d.items)),
      OptionalPart(CustomerLines(d)), OptionalPart(ShippingLines(d)), ConfirmLine);
  }

  /** The index of the last `c` in `s`, if any. */
  function LastIndexOf(s: string, c: char): (r: Option<nat>)
    ensures r.Some? ==> (r.value < |s| && s[r.value] == c &&
      forall j :: r.value < j < |s| ==> s[j] != c)
    ensures r.None? ==> c !in s
  {
    if |s| == 0 then None
    else if s[|s| - 1] == c then Some(|s| - 1)
    else LastIndexOf(s[..|s| - 1], c)
  }

  /** When `a` ends with `c` and `b` holds none, the last `c` of `a + b` is
      the last character of `a`. */
  lemma {:induction false} LastIndexOfAppend(a: string, b: string, c: char)
    requires |a| > 0 && a[|a| - 1] == c && c !in b
    ensures LastIndexOf(a + b, c) == Some(|a| - 1)
    decreases |b|
  {
    if |b| == 0 {
      assert a + b == a;
    } else {
      var ab := a + b;
      assert ab[|ab| - 1] == b[|b| - 1];
      assert b[|b| - 1] in b;
      assert ab[..|ab| - 1] == a + b[..|b| - 1];
      assert forall k :: 0 <= k < |b| - 1 ==> b[..|b| - 1][k] == b[k];
      LastIndexOfAppend(a, b[..|b| - 1], c);
    }
  }

  /** An amount read back from text: what follows the last `$`, as a
      "<integer>.00" amount. */
  function ReadAmount(s: string): Option<int> {
    match LastIndexOf(s, '$')
    case None => None
    case Some(i) => Text.ParseFixed2(s[i + 1..])
  }

  /** Text ending in `$` followed by a rendered amount reads back as that
      amount, whatever comes before the `$`. */
  lemma ReadAmountAfterDollar(lead: string, n: int)
    requires |lead| > 0 && lead[|lead| - 1] == '$'
    ensures ReadAmount(lead + Text.Fixed2(n)) == Some(n)
  {
    var amount := Text.Fixed2(n);
    assert '$' !in amount by {
      assert forall j :: 0 <= j < |amount| ==> amount[j] != '$';
    }
    LastIndexOfAppend(lead, amount, '$');
    Text.EndsWithAppend(lead, amount);
  }

  /** Item `i` of the cart is line `3 + i` of the message, and the amount
      on it is that item's price times its quantity. */
  lemma ItemLinesInOrder(d: OrderDetails)
    ensures forall i :: 0 <= i < |d.items| ==>
      MessageLines(d)[3 + i] == ItemLine(i, d.items[i]) &&
      ReadAmount(MessageLines(d)[3 + i]) == Some(Subtotal(d.items[i]))
  {
    forall i | 0 <= i < |d.items|
      ensures MessageLines(d)[3 + i] == ItemLine(i, d.items[i])
      ensures ReadAmount(MessageLines(d)[3 + i]) == Some(Subtotal(d.items[i]))
    {
      ItemLineAt(d, i);
    }
  }

  /** One item's line in the message, with its amount read back. */
  lemma ItemLineAt(d: OrderDetails, i: int)
    requires 0 <= i < |d.items|
    ensures MessageLines(d)[3 + i] == ItemLine(i, d.items[i])
    ensures ReadAmount(MessageLines(d)[3 + i]) == Some(Subtotal(d.items[i]))
  {
    IndexInMiddle([HeaderLine, "", DetailsLine], ItemBlock(d.items),
      ["", TotalLine(d.items), ""] + (CustomerLines(d) + ShippingLines(d) + FooterLines), i);
    var item := d.items[i];
    var lead := Text.NatToDecimal(i + 1) + ". " + item.product.name +
      " x" + Text.IntToString(item.quantity) + " - $";
    ReadAmountAfterDollar(lead, Subtotal(item));
  }

  /** Indexing past a prefix reaches the middle part. */
  lemma IndexInMiddle<T>(a: seq<T>, b: seq<T>, c: seq<T>, j: int)
    requires 0 <= j < |b|
    ensures (a + (b + c))[|a| + j] == b[j]
  {
  }

  /** The total line follows the item list after one empty line, and the
      amount on it is the sum of the subtotals. */
  lemma TotalLineInPlace(d: OrderDetails)
    ensures var k := 4 + |ItemBlock(d.items)|;
      && k < |MessageLines(d)|
      && MessageLines(d)[k] == TotalLine(d.items)
      && MessageLines(d)[k - 1] == ""
      && Text.EndsWith(TotalLine(d.items), "*")
      && ReadAmount(TotalLine(d.items)[..|TotalLine(d.items)| - 1]) == Some(SumSubtotals(d.items))
  {
    var amount := Text.Fixed2(SumSubtotals(d.items));
    Text.EndsWithAppend("*Total: $" + amount, "*");
    Text.StartsWithAppend("*Total: $" + amount, "*");
    ReadAmountAfterDollar("*Total: $", SumSubtotals(d.items));
  }

  /** When both are given, the customer line comes right before the
      shipping line. */
  lemma CustomerBeforeShipping(d: OrderDetails)
    requires IsGiven(d.customerName) && IsGiven(d.shippingAddress)
    ensures var k := 6 + |ItemBlock(d.items)|;
      && k + 1 < |MessageLines(d)|
      && MessageLines(d)[k] == CustomerLabel + d.customerName.value
      && MessageLines(d)[k + 1] == ShippingLabel + d.shippingAddress.value
  {
  }

  /** Item lines begin with a digit. */
  lemma ItemLineStartsWithDigit(index: nat, item: CartItem)
    ensures |ItemLine(index, item)| > 0 && Text.IsDigit(ItemLine(index, item)[0])
  {
    var num := Text.NatToDecimal(index + 1);
    assert ItemLine(index, item)[0] == num[0];
  }

  /** A line that carries neither optional label. */
  predicate Unlabelled(line: string) {
    !Text.StartsWith(line, CustomerLabel) && !Text.StartsWith(line, ShippingLabel)
  }

  /** The lines of the message that are there whatever the input. */
  function FixedLines(items: seq<CartItem>): seq<string> {
    [HeaderLine, "", DetailsLine] + ItemBlock(items) + ["", TotalLine(items), ""] + FooterLines
  }

  /** A message line is a fixed line, the customer line or the shipping
      line. */
  lemma MessageLineKinds(d: OrderDetails, line: string)
    ensures line in MessageLines(d) <==>
      line in FixedLines(d.items) || line in CustomerLines(d) || line in ShippingLines(d)
  {
  }

  /** A line whose character at `i` differs from that of `tag` does not
      start with `tag`. */
  lemma DiffersFromLabel(line: string, tag: string, i: nat)
    requires i < |line| && i < |tag| && line[i] != tag[i]
    ensures !Text.StartsWith(line, tag)
  {
  }

  lemma ItemBlockUnlabelled(items: seq<CartItem>)
    ensures forall line | line in ItemBlock(items) :: Unlabelled(line)
  {
    forall line | line in ItemBlock(items)
      ensures Unlabelled(line)
    {
      if |items| > 0 {
        var i :| 0 <= i < |items| && ItemLines(items)[i] == line;
        ItemLineStartsWithDigit(i, items[i]);
        DiffersFromLabel(line, CustomerLabel, 0);
        DiffersFromLabel(line, ShippingLabel, 0);
      }
    }
  }

  lemma TotalLineUnlabelled(items: seq<CartItem>)
    ensures Unlabelled(TotalLine(items))
  {
    var t := TotalLine(items);
    assert t[1] == 'T';
    DiffersFromLabel(t, CustomerLabel, 1);
    DiffersFromLabel(t, ShippingLabel, 1);
  }

  lemma LiteralLinesUnlabelled()
    ensures Unlabelled(HeaderLine) && Unlabelled(DetailsLine)
    ensures Unlabelled(ConfirmLine) && Unlabelled("---") && Unlabelled("")
  {
    DiffersFromLabel(HeaderLine, CustomerLabel, 0);
    DiffersFromLabel(HeaderLine, ShippingLabel, 0);
    DiffersFromLabel(DetailsLine, CustomerLabel, 1);
    DiffersFromLabel(DetailsLine, ShippingLabel, 1);
    DiffersFromLabel(ConfirmLine, CustomerLabel, 0);
    DiffersFromLabel(ConfirmLine, ShippingLabel, 0);
    DiffersFromLabel("---", CustomerLabel, 0);
    DiffersFromLabel("---", ShippingLabel, 0);
  }

  /** Every fixed line is unlabelled. */
  lemma FixedLinesUnlabelled(items: seq<CartItem>)
    ensures forall line | line in FixedLines(items) :: Unlabelled(line)
  {
    ItemBlockUnlabelled(items);
    TotalLineUnlabelled(items);
    LiteralLinesUnlabelled();
    var head := [HeaderLine, "", DetailsLine];
    var total := ["", TotalLine(items), ""];
    assert forall line | line in head :: Unlabelled(line);
    assert forall line | line in total :: Unlabelled(line);
    assert forall line | line in FooterLines :: Unlabelled(line);
    UnlabelledParts(head, ItemBlock(items), total, FooterLines);
  }

  /** Four blocks of unlabelled lines joined together are unlabelled. */
  lemma UnlabelledParts(a: seq<string>, b: seq<string>, c: seq<string>, d: seq<string>)
    requires forall line | line in a :: Unlabelled(line)
    requires forall line | line in b :: Unlabelled(line)
    requires forall line | line in c :: Unlabelled(line)
    requires forall line | line in d :: Unlabelled(line)
    ensures forall line | line in a + b + c + d :: Unlabelled(line)
  {
  }

  /** Neither optional line carries the other's label. */
  lemma OptionalLinesDistinct(d: OrderDetails)
    ensures forall line | line in ShippingLines(d) :: !Text.StartsWith(line, CustomerLabel)
    ensures forall line | line in CustomerLines(d) :: !Text.StartsWith(line, ShippingLabel)
  {
    if IsGiven(d.shippingAddress) {
      DiffersFromLabel(ShippingLabel + d.shippingAddress.value, CustomerLabel, 1);
    }
    if IsGiven(d.customerName) {
      DiffersFromLabel(CustomerLabel + d.customerName.value, ShippingLabel, 1);
    }
  }

  /** The line labelled "*Customer:* " is there exactly when a customer name
      is given. */
  lemma CustomerLineIffGiven(d: OrderDetails)
    ensures (exists line :: line in MessageLines(d) && Text.StartsWith(line, CustomerLabel))
            <==> IsGiven(d.customerName)
  {
    if IsGiven(d.customerName) {
      var line := CustomerLabel + d.customerName.value;
      MessageLineKinds(d, line);
      Text.StartsWithAppend(CustomerLabel, d.customerName.value);
    } else {
      FixedLinesUnlabelled(d.items);
      OptionalLinesDistinct(d);
      forall line | line in MessageLines(d)
        ensures !Text.StartsWith(line, CustomerLabel)
      {
        MessageLineKinds(d, line);
      }
    }
  }

  /** The line labelled "*Shipping Address:* " is there exactly when a
      shipping address is given. */
  lemma ShippingLineIffGiven(d: OrderDetails)
    ensures (exists line :: line in MessageLines(d) && Text.StartsWith(line, ShippingLabel))
            <==> IsGiven(d.shippingAddress)
  {
    if IsGiven(d.shippingAddress) {
      var line := ShippingLabel + d.shippingAddress.value;
      MessageLineKinds(d, line);
      Text.StartsWithAppend(ShippingLabel, d.shippingAddress.value);
    } else {
      FixedLinesUnlabelled(d.items);
      OptionalLinesDistinct(d);
      forall line | line in MessageLines(d)
        ensures !Text.StartsWith(line, ShippingLabel)
      {
        MessageLineKinds(d, line);
      }
    }
  }

  /** Text a single line of the message can hold. */
  predicate NoNewline(s: string) {
    '\n' !in s
  }

  /** Rendered numbers and amounts are single-line. */
  lemma NumbersHaveNoNewline(n: int)
    ensures n >= 0 ==> NoNewline(Text.NatToDecimal(n))
    ensures NoNewline(Text.IntToString(n)) && NoNewline(Text.Fixed2(n))
  {
    if n >= 0 {
      var t := Text.NatToDecimal(n);
      assert forall j :: 0 <= j < |t| ==> t[j] != '\n';
    }
    var t := Text.IntToString(n);
    assert forall j :: 0 <= j < |t| ==> t[j] != '\n';
    var f := Text.Fixed2(n);
    assert forall j :: 0 <= j < |f| ==> f[j] != '\n';
  }

  /** An item line is single-line when the product name is. */
  lemma ItemLineHasNoNewline(index: nat, item: CartItem)
    requires NoNewline(item.product.name)
    ensures NoNewline(ItemLine(index, item))
  {
    NumbersHaveNoNewline(index + 1);
    NumbersHaveNoNewline(item.quantity);
    NumbersHaveNoNewline(Subtotal(item));
    NotInSevenParts(Text.NatToDecimal(index + 1), ". ", item.product.name, " x",
      Text.IntToString(item.quantity), " - $", Text.Fixed2(Subtotal(item)), '\n');
  }

  lemma NotInSevenParts<T>(a: seq<T>, b: seq<T>, c: seq<T>, d: seq<T>, e: seq<T>, f: seq<T>, g: seq<T>, x: T)
    requires x !in a && x !in b && x !in c && x !in d && x !in e && x !in f && x !in g
    ensures x !in a + b + c + d + e + f + g
  {
  }

  lemma LiteralLinesHaveNoNewline()
    ensures NoNewline(HeaderLine) && NoNewline(DetailsLine)
    ensures NoNewline(ConfirmLine) && NoNewline("---") && NoNewline("")
  {
  }

  lemma TotalLineHasNoNewline(items: seq<CartItem>)
    ensures NoNewline(TotalLine(items))
  {
    NumbersHaveNoNewline(SumSubtotals(items));
  }

  lemma ItemBlockHasNoNewline(items: seq<CartItem>)
    requires forall i :: 0 <= i < |items| ==> NoNewline(items[i].product.name)
    ensures forall line | line in ItemBlock(items) :: NoNewline(line)
  {
    forall line | line in ItemBlock(items)
      ensures NoNewline(line)
    {
      if |items| > 0 {
        var i :| 0 <= i < |items| && ItemLines(items)[i] == line;
        ItemLineHasNoNewline(i, items[i]);
      }
    }
  }

  /** Every line of the message is single-line when the product names, the
      customer name and the address are. */
  lemma LinesHaveNoNewline(d: OrderDetails)
    requires forall i :: 0 <= i < |d.items| ==> NoNewline(d.items[i].product.name)
    requires IsGiven(d.customerName) ==> NoNewline(d.customerName.value)
    requires IsGiven(d.shippingAddress) ==> NoNewline(d.shippingAddress.value)
    ensures forall line | line in MessageLines(d) :: NoNewline(line)
  {
    LiteralLinesHaveNoNewline();
    TotalLineHasNoNewline(d.items);
    ItemBlockHasNoNewline(d.items);
    forall line | line in MessageLines(d)
      ensures NoNewline(line)
    {
      MessageLineKinds(d, line);
    }
  }

  /** Splitting the message at newlines gives back its lines, provided the
      product names, the customer name and the address hold no newline. */
  lemma MessageSplitsIntoLines(d: OrderDetails)
    requires forall i :: 0 <= i < |d.items| ==> NoNewline(d.items[i].product.name)
    requires IsGiven(d.customerName) ==> NoNewline(d.customerName.value)
    requires IsGiven(d.shippingAddress) ==> NoNewline(d.shippingAddress.value)
    ensures Text.Split(FormatOrderMessage(d), '\n') == MessageLines(d)
  {
    var lines := MessageLines(d);
    LinesHaveNoNewline(d);
    assert forall k :: 0 <= k < |lines| ==> lines[k] in lines;
    MessageIsItsLines(d);
    Text.SplitJoin(lines, '\n');
  }

  /** Every detailed message opens with the header and closes with the
      confirmation footer. */
  lemma MessageFrame(d: OrderDetails)
    ensures Text.StartsWith(FormatOrderMessage(d), OrderHeader)
    ensures Text.EndsWith(FormatOrderMessage(d), ConfirmationFooter)
  {
    var itemsList := Text.Join(ItemLines(d.items), "\n");
    var total := Text.Fixed2(ReduceTotal(d.items, 0));
    var m0 := OrderHeader;
    var m1 := m0 + (DetailsLine + "\n" + itemsList + "\n\n");
    var m2 := m1 + ("*Total: $" + total + "*\n\n");
    var m3 := m2 + LabelledLine(CustomerLabel, d.customerName);
    var m4 := m3 + LabelledLine(ShippingLabel, d.shippingAddress);
    Text.StartsWithAppend(m0, DetailsLine + "\n" + itemsList + "\n\n");
    Text.StartsWithExtend(m1, m0, "*Total: $" + total + "*\n\n");
    Text.StartsWithExtend(m2, m0, LabelledLine(CustomerLabel, d.customerName));
    Text.StartsWithExtend(m3, m0, LabelledLine(ShippingLabel, d.shippingAddress));
    Text.StartsWithExtend(m4, m0, ConfirmationFooter);
    Text.EndsWithAppend(m4, ConfirmationFooter);
  }

  /** An empty cart is not rejected: the message has an empty item list
      and a zero total. */
  lemma EmptyCartMessage(customerName: Option<string>, shippingAddress: Option<string>)
    ensures var lines := MessageLines(OrderDetails([], customerName, shippingAddress));
      lines[3] == "" && lines[5] == "*Total: $0.00*"
  {
    assert Text.NatToDecimal(0) == "0";
  }

  // ---------------------------------------------------------------------
  // Quick order message

  const QuickGreeting := "Hello Shoaib, " + "I would like to order: "
  const QuickTotalLabel := ". Total: $"
  const QuickClosing := ". My shipping details are: " + "[Please provide your" + " shipping address]"

  /** Reads an entry "<name> (x<quantity>)" back: the entry ends in `)`,
      its last `(` follows a space and precedes an `x`, the quantity is the
      integer between that `x` and the closing `)`, and the name is all the
      text before the space. The name itself may hold parentheses. */
  function ReadQuickEntry(e: string): Option<(string, int)> {
    if |e| == 0 || e[|e| - 1] != ')' then None
    else match LastIndexOf(e, '(')
      case None => None
      case Some(k) =>
        if 1 <= k && k + 2 <= |e| - 1 && e[k - 1] == ' ' && e[k + 1] == 'x' then
          match Text.ParseInt(e[k + 2..|e| - 1])
          case Some(q) => Some((e[..k - 1], q))
          case None => None
        else None
  }

  lemma ReadQuickEntryOfParts(name: string, quantity: int)
    ensures ReadQuickEntry(name + " (x" + Text.IntToString(quantity) + ")") == Some((name, quantity))
  {
    var num := Text.IntToString(quantity);
    assert '(' !in num by {
      assert forall j :: 0 <= j < |num| ==> num[j] != '(';
    }
    ReadEntryOfNumeral(name, num, quantity);
  }

  /** An entry whose numeral holds no `(` and reads as `quantity`. */
  lemma ReadEntryOfNumeral(name: string, num: string, quantity: int)
    requires '(' !in num && Text.ParseInt(num) == Some(quantity)
    ensures ReadQuickEntry(name + " (x" + num + ")") == Some((name, quantity))
  {
    var lead := name + " (";
    var rest := "x" + num + ")";
    var e := name + " (x" + num + ")";
    assert e == lead + rest;
    assert '(' !in rest;
    LastIndexOfAppend(lead, rest, '(');
    assert e[|name| + 3..|e| - 1] == num;
    assert e[..|name|] == name;
  }

  /** "<name> (x<quantity>)": the product name and the quantity read back
      unchanged from the entry. */
  function QuickEntry(item: CartItem): (e: string)
    ensures ReadQuickEntry(e) == Some((item.product.name, item.quantity))
  {
    ReadQuickEntryOfParts(item.product.name, item.quantity);
    item.product.name + " (x" + Text.IntToString(item.quantity) + ")"
  }

  /** One entry per cart item, in order; each reads back as its item's
      product name and quantity. */
  function QuickEntries(items: seq<CartItem>): (entries: seq<string>)
    ensures |entries| == |items|
    ensures forall i :: 0 <= i < |items| ==> entries[i] == QuickEntry(items[i])
    ensures forall i :: 0 <= i < |items| ==>
      ReadQuickEntry(entries[i]) == Some((items[i].product.name, items[i].quantity))
  {
    seq(|items|, i requires 0 <= i < |items| => QuickEntry(items[i]))
  }

  /** `generateQuickOrderMessage`: the greeting, the entries joined by ", ",
      the total the caller passes in, and the request for an address. */
  function GenerateQuickOrderMessage(items: seq<CartItem>, total: int): string {
    var itemNames := Text.Join(QuickEntries(items), ", ");
    QuickGreeting + itemNames + QuickTotalLabel + Text.Fixed2(total) + QuickClosing
  }

  /** Reads the total back from a quick message: drop the fixed closing
      text, then read the amount after the last `$`. */
  function QuickTotal(m: string): Option<int> {
    if Text.EndsWith(m, QuickClosing) then ReadAmount(m[..|m| - |QuickClosing|]) else None
  }

  /** Reads the item list back from a quick message: the text between the
      greeting and the ". Total: $" before the amount. */
  function QuickNames(m: string): Option<string> {
    if |QuickGreeting| + |QuickClosing| <= |m| && Text.StartsWith(m, QuickGreeting) && Text.EndsWith(m, QuickClosing)
    then NamesBeforeTotal(m[|QuickGreeting|..|m| - |QuickClosing|])
    else None
  }

  /** The text before the ". Total: $" that precedes the last `$`. */
  function NamesBeforeTotal(body: string): Option<string> {
    match LastIndexOf(body, '$')
    case None => None
    case Some(i) =>
      if |QuickTotalLabel| <= i + 1 && body[i + 1 - |QuickTotalLabel|..i + 1] == QuickTotalLabel
      then Some(body[..i + 1 - |QuickTotalLabel|])
      else None
  }

  lemma QuickNamesOfParts(names: string, total: int)
    ensures QuickNames(QuickGreeting + (names + QuickTotalLabel + Text.Fixed2(total)) + QuickClosing) == Some(names)
  {
    var amount := Text.Fixed2(total);
    var lead := names + QuickTotalLabel;
    var body := lead + amount;
    var m := QuickGreeting + body + QuickClosing;
    Text.StartsWithAppend(QuickGreeting, body);
    Text.StartsWithExtend(QuickGreeting + body, QuickGreeting, QuickClosing);
    Text.EndsWithAppend(QuickGreeting + body, QuickClosing);
    assert m[|QuickGreeting|..|m| - |QuickClosing|] == body;
    assert lead[|lead| - 1] == '$';
    assert '$' !in amount by {
      assert forall j :: 0 <= j < |amount| ==> amount[j] != '$';
    }
    LastIndexOfAppend(lead, amount, '$');
    assert body[|names|..|lead|] == QuickTotalLabel;
    assert body[..|names|] == names;
    assert |QuickGreeting| + |QuickClosing| <= |m| && Text.StartsWith(m, QuickGreeting) && Text.EndsWith(m, QuickClosing);
  }

  /** The middle three of five pieces grouped together. */
  lemma GroupMiddle(a: string, b: string, c: string, d: string, e: string)
    ensures a + b + c + d + e == a + (b + c + d) + e
  {
  }

  /** The quick message lists the entries "<name> (x<quantity>)" of the
      items, in input order and joined by ", ", between the greeting and
      the total. */
  lemma QuickNamesRoundTrip(items: seq<CartItem>, total: int)
    ensures QuickNames(GenerateQuickOrderMessage(items, total)) == Some(Text.Join(QuickEntries(items), ", "))
  {
    var names := Text.Join(QuickEntries(items), ", ");
    GroupMiddle(QuickGreeting, names, QuickTotalLabel, Text.Fixed2(total), QuickClosing);
    QuickNamesOfParts(names, total);
  }

  /** The quick message states exactly the total the caller passed, whatever
      the item names hold. */
  lemma QuickTotalRoundTrip(items: seq<CartItem>, total: int)
    ensures QuickTotal(GenerateQuickOrderMessage(items, total)) == Some(total)
  {
    var m := GenerateQuickOrderMessage(items, total);
    var lead := QuickGreeting + Text.Join(QuickEntries(items), ", ") + QuickTotalLabel;
    var amount := Text.Fixed2(total);
    assert m == (lead + amount) + QuickClosing;
    Text.EndsWithAppend(lead + amount, QuickClosing);
    Text.StartsWithAppend(lead + amount, QuickClosing);
    assert m[..|m| - |QuickClosing|] == lead + amount;
    assert lead[|lead| - 1] == '$';
    ReadAmountAfterDollar(lead, total);
  }

  /** An order of one Royal Red Bridal Lehenga and two Blush Pink Reception
      Lehengas. */
  const ExampleOrder := [CartItem(RoyalRedBridal, 1), CartItem(PinkReception, 2)]

  lemma ExampleOrderTotal()
    ensures SumSubtotals(ExampleOrder) == 215000
  {
    var items := ExampleOrder;
    assert items[1..] == [CartItem(PinkReception, 2)];
    assert items[1..][1..] == [];
    assert Subtotal(items[0]) == 85000;
    assert Subtotal(items[1]) == 130000;
    assert SumSubtotals(items[1..][1..]) == 0;
    assert SumSubtotals(items[1..]) == 130000;
  }

  lemma ExampleOrderNames()
    ensures Text.Join(QuickEntries(ExampleOrder), ", ") ==
      "Royal Red Bridal Lehenga (x1)" + ", " + "Blush Pink Reception Lehenga (x2)"
  {
    var items := ExampleOrder;
    assert Text.IntToString(1) == "1";
    assert Text.IntToString(2) == "2";
    var entries := QuickEntries(items);
    assert entries[0] == "Royal Red Bridal Lehenga (x1)";
    assert entries[1] == "Blush Pink Reception Lehenga (x2)";
    assert entries[1..] == [entries[1]];
  }

  /** The quick message for the example order, word for word: the
      greeting, both entries, the total and the closing text. */
  lemma QuickMessageExample()
    ensures GenerateQuickOrderMessage(ExampleOrder, SumSubtotals(ExampleOrder)) ==
      QuickGreeting + ("Royal Red Bridal Lehenga (x1)" + ", " + "Blush Pink Reception Lehenga (x2)") +
      QuickTotalLabel + "215000.00" + QuickClosing
  {
    ExampleOrderTotal();
    ExampleOrderNames();
    ExampleTotalText();
    QuickMessageOfParts(ExampleOrder, SumSubtotals(ExampleOrder),
      "Royal Red Bridal Lehenga (x1)" + ", " + "Blush Pink Reception Lehenga (x2)", "215000.00");
  }

  /** The quick message is the greeting, the joined entries, the total
      label, the amount and the closing text, in that order. */
  lemma QuickMessageOfParts(items: seq<CartItem>, total: int, names: string, amount: string)
    requires Text.Join(QuickEntries(items), ", ") == names
    requires Text.Fixed2(total) == amount
    ensures GenerateQuickOrderMessage(items, total) == QuickGreeting + names + QuickTotalLabel + amount + QuickClosing
  {
  }

  /** The example total as the message writes it. */
  lemma ExampleTotalText()
    ensures Text.Fixed2(215000) == "215000.00"
  {
    assert Text.NatToDecimal(215000) == "215000";
  }


  // ---------------------------------------------------------------------
  // Deep link

  const UrlPrefix := "https://wa.me/" + WhatsAppNumber + "?text="

  /** Encoded text holds neither `&` nor `#`. */
  lemma EncodedHasNoDelimiters(message: string)
    ensures '&' !in UriComponent.Encode(message) && '#' !in UriComponent.Encode(message)
  {
    var enc := UriComponent.Encode(message);
    UriComponent.EncodeWellFormed(message);
    UriComponent.WellFormedChars(enc);
  }

  /** `generateWhatsAppUrl`: the fixed prefix, then the message
      percent-encoded. The encoded part is made only of unreserved characters
      and `%HH` triples, spells no unreserved character as a triple, decodes
      to the message and holds no `&` or `#`, so the `text` parameter runs to
      the end of the link. */
  function WhatsAppUrl(message: string): (url: string)
    ensures Text.StartsWith(url, UrlPrefix)
    ensures UriComponent.WellFormed(url[|UrlPrefix|..])
    ensures UriComponent.Canonical(url[|UrlPrefix|..])
    ensures UriComponent.Decode(url[|UrlPrefix|..]) == Some(message)
    ensures '&' !in url[|UrlPrefix|..] && '#' !in url[|UrlPrefix|..]
  {
    var enc := UriComponent.Encode(message);
    UriComponent.EncodeWellFormed(message);
    UriComponent.EncodeCanonical(message);
    Text.StartsWithAppend(UrlPrefix, enc);
    Text.EndsWithAppend(UrlPrefix, enc);
    UriComponent.RoundTrip(message);
    EncodedHasNoDelimiters(message);
    UrlPrefix + enc
  }

  /** The link is the only one with the prefix whose text part is in the
      encoder's canonical spelling and decodes to the message. */
  lemma LinkIsUnique(message: string, url: string)
    requires Text.StartsWith(url, UrlPrefix)
    requires UriComponent.Canonical(url[|UrlPrefix|..])
    requires UriComponent.Decode(url[|UrlPrefix|..]) == Some(message)
    ensures url == WhatsAppUrl(message)
  {
    UriComponent.CanonicalIsEncoding(url[|UrlPrefix|..], message);
    assert url == url[..|UrlPrefix|] + url[|UrlPrefix|..];
  }

  /** The value of the `text` parameter of a link to the destination number:
      the text after the prefix up to the first `&` or `#`, percent-decoded. */
  function TextParameter(url: string): Option<string> {
    if !Text.StartsWith(url, UrlPrefix) then None
    else UriComponent.Decode(UpToDelimiter(url[|UrlPrefix|..]))
  }

  /** The longest prefix free of `&` and `#`. */
  function UpToDelimiter(s: string): (r: string)
    ensures '&' !in s && '#' !in s ==> r == s
  {
    if |s| == 0 || s[0] == '&' || s[0] == '#' then ""
    else [s[0]] + UpToDelimiter(s[1..])
  }

  /** The recipient reads back exactly the message that was linked. */
  lemma LinkCarriesMessage(message: string)
    ensures TextParameter(WhatsAppUrl(message)) == Some(message)
  {
    UriComponent.RoundTrip(message);
  }

  /** The link `initiateWhatsAppCheckout` opens: the recipient reads the
      detailed order message back from it. */
  function CheckoutUrl(d: OrderDetails): (url: string)
    ensures TextParameter(url) == Some(FormatOrderMessage(d))
  {
    LinkCarriesMessage(FormatOrderMessage(d));
    WhatsAppUrl(FormatOrderMessage(d))
  }

  /** The link `initiateQuickCheckout` opens: the recipient reads back the
      quick message, and from it the total that was passed in. */
  function QuickCheckoutUrl(items: seq<CartItem>, total: int): (url: string)
    ensures TextParameter(url) == Some(GenerateQuickOrderMessage(items, total))
    ensures TextParameter(url).Some? && QuickTotal(TextParameter(url).value) == Some(total)
  {
    LinkCarriesMessage(GenerateQuickOrderMessage(items, total));
    QuickTotalRoundTrip(items, total);
    WhatsAppUrl(GenerateQuickOrderMessage(items, total))
  }
}
