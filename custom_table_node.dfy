/**
 * The table node that carries a pixel width, and the width style it renders.
 */
module CustomTableNodes {
  import opened Lexical

  /** The type name the node registers under. */
  const TableType: string := "table"

  predicate IsDigit(c: char) { '0' <= c <= '9' }

  predicate AllDigits(s: string) { forall i :: 0 <= i < |s| ==> IsDigit(s[i]) }

  function DigitChar(d: nat): (c: char)
    requires d < 10
    ensures IsDigit(c) && c as int - '0' as int == d
  {
    ('0' as int + d) as char
  }

  function DigitValue(c: char): (d: nat)
    requires IsDigit(c)
    ensures d < 10 && DigitChar(d) == c
  {
    c as int - '0' as int
  }

  /** The decimal numeral of `n`: digits only, and no leading zero unless the
      number is zero. A template literal prints a number below 10^21 this way. */
  function DecimalString(n: nat): (s: string)
    ensures |s| >= 1 && AllDigits(s)
    ensures s[0] == '0' ==> n == 0
    decreases n
  {
    if n < 10 then [DigitChar(n)] else DecimalString(n / 10) + [DigitChar(n % 10)]
  }

  /** Reads a string of digits as a decimal number. */
  function ParseDecimal(s: string): (n: nat)
    requires AllDigits(s)
    ensures |s| == 1 ==> n == DigitValue(s[0])
    decreases |s|
  {
    if |s| == 0 then 0 else 10 * ParseDecimal(s[..|s| - 1]) + DigitValue(s[|s| - 1])
  }

  lemma {:induction false} ParseDecimalString(n: nat)
    ensures ParseDecimal(DecimalString(n)) == n
    decreases n
  {
    if n >= 10 {
      var s := DecimalString(n);
      assert s[..|s| - 1] == DecimalString(n / 10);
      ParseDecimalString(n / 10);
    }
  }

  /** The `style.width` value of a rendered table of the given width. */
  function WidthStyle(width: nat): string
  {
    DecimalString(width) + "px"
  }

  /** Reads a width style back; None for anything not of the form digits + "px". */
  function ParseWidthStyle(style: string): (r: Option<nat>)
    ensures r.Some? ==> |style| >= 3 && style[|style| - 2..] == "px"
  {
    if |style| >= 3 && style[|style| - 2..] == "px" && AllDigits(style[..|style| - 2])
    then Some(ParseDecimal(style[..|style| - 2]))
    else None
  }

  /** The width style determines the width: reading it back gives the width. */
  lemma WidthStyleRoundTrip(width: nat)
    ensures ParseWidthStyle(WidthStyle(width)) == Some(width)
  {
    var s := WidthStyle(width);
    assert s[..|s| - 2] == DecimalString(width);
    assert s[|s| - 2..] == "px";
    ParseDecimalString(width);
  }

  /** Distinct widths render distinct styles. */
  lemma WidthStyleInjective(a: nat, b: nat)
    ensures WidthStyle(a) == WidthStyle(b) ==> a == b
  {
    WidthStyleRoundTrip(a);
    WidthStyleRoundTrip(b);
  }

  /**
   * A table node with one extra attribute, its width. The rows are the
   * node's children, which `append` extends in place.
   */
  class CustomTableNode {
    const key: Key
    const width: nat
    var rows: seq<TableRowNode>

    /** A new node with the given width; the editor supplies the key when the
        caller gives none, here the caller always passes it. */
    constructor (width: nat, key: Key)
      ensures this.width == width && this.key == key && rows == []
    {
      this.key := key;
      this.width := width;
      rows := [];
    }

    /** The type name, shared with the stock table node it replaces. */
    static function GetType(): (t: string)
      ensures t == TableType
    {
      "table"
    }

    /** A copy with the same width and key. */
    static method Clone(node: CustomTableNode) returns (copy: CustomTableNode)
      ensures fresh(copy)
      ensures copy.width == node.width && copy.key == node.key && copy.rows == []
    {
      copy := new CustomTableNode(node.width, node.key);
    }

    method Append(row: TableRowNode)
      modifies this`rows
      ensures rows == old(rows) + [row]
    {
      rows := rows + [row];
    }

    /** The width part of `createDOM`: the style of the rendered table, from
        which the node's width can be read back. */
    method CreateDOM() returns (styleWidth: string)
      ensures ParseWidthStyle(styleWidth) == Some(width)
      ensures styleWidth == WidthStyle(width)
    {
      styleWidth := DecimalString(width) + "px";
      WidthStyleRoundTrip(width);
    }
  }
}
