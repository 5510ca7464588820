/**
 * The cart summary of the catalog header (`app/catalogo/components/Header.tsx`): the
 * item count shown on the cart badge, and the WhatsApp link whose text asks the vendor
 * for a quote on the cart's items.
 */
module QuoteMessage {
  import opened Common
  import opened PercentEncoding

  /** One cart entry; `id` and `price` travel with it but never reach the message. */
  datatype CartItem = CartItem(id: int, name: string, price: int, corCodigo: Option<string>, quantity: int)

  /** The start of every link: the vendor's WhatsApp number, 5571992344791, and the text parameter. */
  const LinkPrefix := "https://wa.me/5571992344791?text="
  /** The text of the link for an empty cart, appended without percent-encoding. */
  const EmptyCartText := "Olá, gostaria de fazer um orçamento."
  /** The first line of a non-empty cart's message, followed by a blank line. */
  const Greeting := "Olá, gostaria de fazer um orçamento para os seguintes itens:\n\n"

  // ---------------------------------------------------------------------------
  // cartCount

  /** `reduce((acc, item) => acc + item.quantity, acc)`: a left fold from `acc`. */
  function CountFrom(acc: int, cart: seq<CartItem>): (r: int)
    ensures (forall i :: 0 <= i < |cart| ==> cart[i].quantity >= 0) ==> r >= acc
    decreases |cart|
  {
    if cart == [] then acc else CountFrom(acc + cart[0].quantity, cart[1..])
  }

  /** `cartCount`: the fold started at 0. */
  function CartCount(cart: seq<CartItem>): (r: int)
    ensures (forall i :: 0 <= i < |cart| ==> cart[i].quantity >= 0) ==> r >= 0
  {
    CountFrom(0, cart)
  }

  /** Starting the fold at `acc` adds `acc` to the count. */
  lemma {:induction false} CountFromOffset(acc: int, cart: seq<CartItem>)
    ensures CountFrom(acc, cart) == acc + CartCount(cart)
    decreases |cart|
  {
    if cart != [] {
      CountFromOffset(acc + cart[0].quantity, cart[1..]);
      CountFromOffset(cart[0].quantity, cart[1..]);
    }
  }

  /** The count of a cart is the sum of the counts of its parts. */
  lemma {:induction false} CartCountAppend(a: seq<CartItem>, b: seq<CartItem>)
    ensures CartCount(a + b) == CartCount(a) + CartCount(b)
    decreases |a|
  {
    if a == [] {
      assert a + b == b;
    } else {
      assert (a + b)[0] == a[0] && (a + b)[1..] == a[1..] + b;
      CountFromOffset(a[0].quantity, a[1..] + b);
      CountFromOffset(a[0].quantity, a[1..]);
      CartCountAppend(a[1..], b);
    }
  }

  /** The empty cart counts 0 and a single item counts its quantity. */
  lemma CartCountBase(item: CartItem)
    ensures CartCount([]) == 0
    ensures CartCount([item]) == item.quantity
  {
    assert [item][1..] == [];
    assert CartCount([item]) == CountFrom(item.quantity, []);
  }

  /** With positive quantities, the badge shows at least as many units as there are lines. */
  lemma {:induction false} CartCountAtLeastLength(cart: seq<CartItem>)
    requires forall i :: 0 <= i < |cart| ==> cart[i].quantity > 0
    ensures CartCount(cart) >= |cart|
    decreases |cart|
  {
    if cart != [] {
      CartCountAtLeastLength(cart[1..]);
      CountFromOffset(cart[0].quantity, cart[1..]);
    }
  }

  // ---------------------------------------------------------------------------
  // Decimal rendering of quantities in a template literal

  function DigitChar(d: int): (c: char)
    requires 0 <= d < 10
    ensures '0' <= c <= '9'
  {
    ('0' as int + d) as char
  }

  /** The decimal digits of `n`. */
  function NatToDecimal(n: nat): (s: string)
    ensures |s| >= 1 && '0' <= s[0] <= '9'
  {
    if n < 10 then [DigitChar(n)] else NatToDecimal(n / 10) + [DigitChar(n % 10)]
  }

  /** `${n}` for an integer `n`: a minus sign before the digits of a negative number. */
  function IntToDecimal(n: int): (s: string)
    ensures s != [] && (s[0] == '-' <==> n < 0)
    decreases if n < 0 then 1 else 0
  {
    if n < 0 then "-" + IntToDecimal(-n) else NatToDecimal(n)
  }

  /** The value of a string of decimal digits. */
  function DecimalValue(s: string): int
  {
    if s == [] then 0 else DecimalValue(s[..|s| - 1]) * 10 + (s[|s| - 1] as int - '0' as int)
  }

  /** Reading the digits back gives the number. */
  lemma {:induction false} DecimalRoundTrip(n: nat)
    ensures DecimalValue(NatToDecimal(n)) == n
  {
    var s := NatToDecimal(n);
    if n < 10 {
      assert s[..0] == [];
    } else {
      DecimalRoundTrip(n / 10);
      assert s[..|s| - 1] == NatToDecimal(n / 10);
      assert s[|s| - 1] == DigitChar(n % 10);
    }
  }

  /** Only digits, with no leading zero unless the number is 0. */
  lemma {:induction false} NatToDecimalDigits(n: nat)
    ensures forall i :: 0 <= i < |NatToDecimal(n)| ==> '0' <= NatToDecimal(n)[i] <= '9'
    ensures n >= 10 ==> NatToDecimal(n)[0] != '0'
  {
    if n >= 10 {
      NatToDecimalDigits(n / 10);
      var s := NatToDecimal(n);
      assert s == NatToDecimal(n / 10) + [DigitChar(n % 10)];
    }
  }

  // ---------------------------------------------------------------------------
  // The message and the link

  /** `if (item.corCodigo)`: present and not the empty string. */
  predicate HasCode(item: CartItem): (r: bool)
    ensures r ==> item.corCodigo.Some? && |item.corCodigo.value| >= 1
    ensures item.corCodigo == Some("") ==> !r
  {
    item.corCodigo.Some? && item.corCodigo.value != ""
  }

  /** The text one cart entry adds to the message. */
  function ItemLine(item: CartItem): (r: string)
    ensures |r| >= 2 && r[0] == '*' && r[1] == ' '
  {
    "* " + IntToDecimal(item.quantity) + "x " + item.name
      + (if HasCode(item) then " (" + item.corCodigo.value + ")" else "")
      + "\n"
  }

  /** The item lines of a cart, in cart order, one per entry. */
  function ItemLines(cart: seq<CartItem>): (r: string)
    ensures |r| >= 2 * |cart|
  {
    if cart == [] then "" else ItemLines(cart[..|cart| - 1]) + ItemLine(cart[|cart| - 1])
  }

  /** The message of a non-empty cart. */
  function Message(cart: seq<CartItem>): (r: string)
    ensures StartsWith(r, Greeting) && |r| > |Greeting| <==> cart != []
  {
    PrefixOfAppend(Greeting, ItemLines(cart));
    Greeting + ItemLines(cart)
  }

  /** `whatsappLink` as a function of the cart. */
  function QuoteLink(cart: seq<CartItem>): (r: string)
    ensures StartsWith(r, LinkPrefix) && |r| > |LinkPrefix|
  {
    if |cart| == 0 then PrefixOfAppend(LinkPrefix, EmptyCartText); LinkPrefix + EmptyCartText
    else PrefixOfAppend(LinkPrefix, EncodeURIComponent(Message(cart))); LinkPrefix + EncodeURIComponent(Message(cart))
  }

  /**
   * `whatsappLink`: the `forEach` loop appends one line per entry to `message`, then the
   * message is percent-encoded behind the fixed prefix.
   */
  method WhatsappLink(cart: seq<CartItem>) returns (link: string)
    ensures link == QuoteLink(cart)
  {
    if |cart| == 0 {
      return LinkPrefix + EmptyCartText;
    }
    var message := Greeting;
    var i := 0;
    while i < |cart|
      invariant 0 <= i <= |cart|
      invariant message == Greeting + ItemLines(cart[..i])
    {
      var item := cart[i];
      ghost var before := message;
      message := message + "* " + IntToDecimal(item.quantity) + "x " + item.name;
      if item.corCodigo.Some? && item.corCodigo.value != "" {
        message := message + " (" + item.corCodigo.value + ")";
      }
      message := message + "\n";
      LineAppended(before, item);
      ItemLinesSnoc(cart, i);
      AppendAssoc(Greeting, ItemLines(cart[..i]), ItemLine(item));
      i := i + 1;
    }
    assert cart[..i] == cart;
    link := LinkPrefix + EncodeURIComponent(message);
  }

  /** The three appends of one loop iteration add exactly the entry's line. */
  lemma LineAppended(before: string, item: CartItem)
    ensures HasCode(item) ==>
      before + "* " + IntToDecimal(item.quantity) + "x " + item.name + " (" + item.corCodigo.value + ")" + "\n"
        == before + ItemLine(item)
    ensures !HasCode(item) ==>
      before + "* " + IntToDecimal(item.quantity) + "x " + item.name + "\n" == before + ItemLine(item)
  {
  }

  /** Extending the prefix by one entry appends that entry's line. */
  lemma ItemLinesSnoc(cart: seq<CartItem>, i: nat)
    requires i < |cart|
    ensures ItemLines(cart[..i + 1]) == ItemLines(cart[..i]) + ItemLine(cart[i])
  {
    assert cart[..i + 1][..i] == cart[..i];
  }

  /** The lines of two carts put together are the lines of each, in order. */
  lemma {:induction false} ItemLinesAppend(a: seq<CartItem>, b: seq<CartItem>)
    ensures ItemLines(a + b) == ItemLines(a) + ItemLines(b)
    decreases |b|
  {
    if b == [] {
      assert a + b == a;
    } else {
      var b' := b[..|b| - 1];
      var last := b[|b| - 1];
      var ab := a + b;
      ItemLinesAppend(a, b');
      InitOfAppend(a, b);
      LastOfAppend(a, b);
      assert ItemLines(ab) == ItemLines(a + b') + ItemLine(last);
      assert ItemLines(b) == ItemLines(b') + ItemLine(last);
      AppendAssoc(ItemLines(a), ItemLines(b'), ItemLine(last));
    }
  }

  /** Entry `k` contributes its own line, after the lines of the entries before it. */
  lemma ItemLinesAt(cart: seq<CartItem>, k: nat)
    requires k < |cart|
    ensures ItemLines(cart) == ItemLines(cart[..k]) + ItemLine(cart[k]) + ItemLines(cart[k + 1..])
  {
    var mid := cart[..k + 1];
    var post := cart[k + 1..];
    assert cart == mid + post;
    ItemLinesAppend(mid, post);
    ItemLinesSnoc(cart, k);
  }

  /** The empty cart yields the fixed link, its text appended without percent-encoding. */
  lemma QuoteLinkEmptyCart()
    ensures QuoteLink([]) == "https://wa.me/5571992344791?text=" + "Olá, gostaria de fazer um orçamento."
  {
  }

  /**
   * The empty cart's text keeps its first space raw, where a percent-encoded text never
   * holds a space: the empty cart's link is never the link of a non-empty cart.
   */
  lemma EmptyCartLinkIsDistinct(cart: seq<CartItem>)
    requires cart != []
    ensures QuoteLink([])[|LinkPrefix| + 4] == ' '
    ensures QuoteLink(cart) != QuoteLink([])
  {
    var empty := QuoteLink([]);
    assert empty == LinkPrefix + EmptyCartText;
    assert EmptyCartText[4] == ' ';
    assert empty[|LinkPrefix| + 4] == ' ';
    QuoteLinkCarriesMessage(cart);
    assert !Unreserved(' ');
    if |QuoteLink(cart)| > |LinkPrefix| + 4 {
      assert QuoteLink(cart)[|LinkPrefix| + 4] != ' ';
    }
  }

  /** A non-empty cart's link is the fixed prefix followed by the message, percent-encoded. */
  lemma QuoteLinkCarriesMessage(cart: seq<CartItem>)
    requires cart != []
    ensures StartsWith(QuoteLink(cart), "https://wa.me/5571992344791?text=")
    ensures Decode(QuoteLink(cart)[|LinkPrefix|..]) == Some(Message(cart))
    ensures forall i :: |LinkPrefix| <= i < |QuoteLink(cart)| ==>
      Unreserved(QuoteLink(cart)[i]) || QuoteLink(cart)[i] == '%'
  {
    var link := QuoteLink(cart);
    var encoded := EncodeURIComponent(Message(cart));
    assert link == LinkPrefix + encoded;
    assert link[|LinkPrefix|..] == encoded;
    DecodeEncode(Message(cart));
    EncodeIsUrlSafe(Message(cart));
  }

  /** A non-empty cart's message opens with the greeting and ends with a newline. */
  lemma MessageShape(cart: seq<CartItem>)
    requires cart != []
    ensures StartsWith(Message(cart), Greeting)
    ensures Message(cart)[|Message(cart)| - 1] == '\n'
  {
    var item := cart[|cart| - 1];
    var body := ItemLines(cart);
    var init := ItemLines(cart[..|cart| - 1]);
    PrefixOfAppend(Greeting, body);
    ItemLineEndsLine(item);
    LastOfAppend(init, ItemLine(item));
    LastOfAppend(Greeting, body);
  }

  /** Every item line ends with a newline. */
  lemma ItemLineEndsLine(item: CartItem)
    ensures ItemLine(item) != [] && ItemLine(item)[|ItemLine(item)| - 1] == '\n'
  {
    var code := if HasCode(item) then " (" + item.corCodigo.value + ")" else "";
    var head := "* " + IntToDecimal(item.quantity) + "x " + item.name + code;
    assert ItemLine(item) == head + "\n";
    LastOfAppend(head, "\n");
  }

  /** How many newline characters `s` holds. */
  function Newlines(s: string): nat
  {
    if s == [] then 0 else Newlines(s[..|s| - 1]) + (if s[|s| - 1] == '\n' then 1 else 0)
  }

  lemma {:induction false} NewlinesAppend(a: string, b: string)
    ensures Newlines(a + b) == Newlines(a) + Newlines(b)
    decreases |b|
  {
    if b == [] {
      assert a + b == a;
    } else {
      NewlinesAppend(a, b[..|b| - 1]);
      assert (a + b)[..|a + b| - 1] == a + b[..|b| - 1];
    }
  }

  lemma {:induction false} NewlinesOfNoNewline(s: string)
    requires forall i :: 0 <= i < |s| ==> s[i] != '\n'
    ensures Newlines(s) == 0
    decreases |s|
  {
    if s != [] {
      NewlinesOfNoNewline(s[..|s| - 1]);
    }
  }

  /** A rendered integer holds no newline. */
  lemma IntToDecimalOneLine(n: int)
    ensures forall i :: 0 <= i < |IntToDecimal(n)| ==> IntToDecimal(n)[i] != '\n'
  {
    if n < 0 {
      NatToDecimalDigits(-n);
      assert IntToDecimal(n) == "-" + NatToDecimal(-n);
    } else {
      NatToDecimalDigits(n);
    }
  }

  /** No newline inside an entry's name or code. */
  predicate SingleLine(item: CartItem)
  {
    && (forall i :: 0 <= i < |item.name| ==> item.name[i] != '\n')
    && (item.corCodigo.Some? ==> forall i :: 0 <= i < |item.corCodigo.value| ==> item.corCodigo.value[i] != '\n')
  }

  lemma ItemLineIsOneLine(item: CartItem)
    requires SingleLine(item)
    ensures Newlines(ItemLine(item)) == 1
  {
    var q := IntToDecimal(item.quantity);
    var code := if HasCode(item) then " (" + item.corCodigo.value + ")" else "";
    var body := "* " + q + "x " + item.name + code;
    assert ItemLine(item) == body + "\n";
    IntToDecimalOneLine(item.quantity);
    forall i | 0 <= i < |body| ensures body[i] != '\n' {
    }
    NewlinesOfNoNewline(body);
    NewlinesAppend(body, "\n");
  }

  /**
   * No aggregation: when no name or code holds a newline, the item lines hold exactly one
   * newline per cart entry, repeated names included.
   */
  lemma {:induction false} ItemLinesCount(cart: seq<CartItem>)
    requires forall i :: 0 <= i < |cart| ==> SingleLine(cart[i])
    ensures Newlines(ItemLines(cart)) == |cart|
    decreases |cart|
  {
    if cart != [] {
      var init := cart[..|cart| - 1];
      ItemLinesCount(init);
      ItemLineIsOneLine(cart[|cart| - 1]);
      NewlinesAppend(ItemLines(init), ItemLine(cart[|cart| - 1]));
    }
  }

  /** Two carts agree on everything the message reads: name, code and quantity, entry by entry. */
  predicate SameQuoteFields(a: seq<CartItem>, b: seq<CartItem>)
  {
    && |a| == |b|
    && forall i :: 0 <= i < |a| ==>
         a[i].name == b[i].name && a[i].corCodigo == b[i].corCodigo && a[i].quantity == b[i].quantity
  }

  /** The link depends only on the cart's names, codes and quantities, never on ids or prices. */
  lemma {:induction false} QuoteLinkIgnoresIdAndPrice(a: seq<CartItem>, b: seq<CartItem>)
    requires SameQuoteFields(a, b)
    ensures ItemLines(a) == ItemLines(b)
    ensures QuoteLink(a) == QuoteLink(b)
    decreases |a|
  {
    if a != [] {
      var n := |a| - 1;
      assert SameQuoteFields(a[..n], b[..n]);
      QuoteLinkIgnoresIdAndPrice(a[..n], b[..n]);
      assert ItemLine(a[n]) == ItemLine(b[n]);
    }
  }

  /** A two-entry cart: lines in cart order, a code only where one is given. */
  lemma TwoItemExample(id1: int, price1: int, id2: int, price2: int)
    ensures Message([CartItem(id1, "Rolamento X", price1, Some("12"), 2),
                     CartItem(id2, "Tampa Y", price2, None, 1)])
         == Greeting + "* 2x Rolamento X (12)\n" + "* 1x Tampa Y\n"
  {
    var x := CartItem(id1, "Rolamento X", price1, Some("12"), 2);
    var y := CartItem(id2, "Tampa Y", price2, None, 1);
    assert IntToDecimal(2) == "2" && IntToDecimal(1) == "1";
    assert ItemLine(x) == "* 2x Rolamento X (12)\n";
    assert ItemLine(y) == "* 1x Tampa Y\n";
    assert [x, y][..1] == [x];
    assert [x][..0] == [];
    assert ItemLines([x]) == ItemLine(x);
    assert ItemLines([x, y]) == ItemLine(x) + ItemLine(y);
    AppendAssoc(Greeting, ItemLine(x), ItemLine(y));
  }
}
