/**
 * The token stream of XHPASTTree: the parser reports each token as a
 * `[type, length]` pair, and the constructor turns the pairs into tokens by
 * slicing the source at a running byte offset.
 */
module XhpastTokens {
  import opened Php

  /** One entry of the parser's token stream: `[type, length]`. */
  datatype RawToken = RawToken(kind: string, len: nat)

  /** An XHPASTToken: its id in the stream, its type, its text and its byte offset. */
  datatype Token = Token(id: nat, kind: string, text: string, offset: nat)

  /** Sum of the lengths of `raw`, added up from the front as the constructor does. */
  function SumLengths(raw: seq<RawToken>): nat
  {
    if raw == [] then 0 else SumLengths(raw[..|raw| - 1]) + raw[|raw| - 1].len
  }

  /** Offset of token `i`: the lengths of the tokens before it, added up. */
  function Offset(raw: seq<RawToken>, i: nat): nat
    requires i <= |raw|
  {
    SumLengths(raw[..i])
  }

  /** Token `i` of the stream made from `raw` over `source`. */
  function TokenAt(source: string, raw: seq<RawToken>, i: nat): Token
    requires i < |raw|
  {
    var offset := Offset(raw, i);
    Token(i, raw[i].kind, Substr(source, offset, raw[i].len), offset)
  }

  /** The whole token stream. */
  function Tokens(source: string, raw: seq<RawToken>): seq<Token>
  {
    seq(|raw|, i requires 0 <= i < |raw| => TokenAt(source, raw, i))
  }

  /** Concatenation of the texts of `tokens`, in order. */
  function Texts(tokens: seq<Token>): string
  {
    if tokens == [] then [] else Texts(tokens[..|tokens| - 1]) + tokens[|tokens| - 1].text
  }

  /** Each offset is the one before plus the length of the token before. */
  lemma OffsetStep(raw: seq<RawToken>, i: nat)
    requires i < |raw|
    ensures Offset(raw, i + 1) == Offset(raw, i) + raw[i].len
  {
    assert raw[..i + 1][..i] == raw[..i];
  }

  /** Offsets never decrease along the stream. */
  lemma {:induction false} OffsetMonotone(raw: seq<RawToken>, i: nat, j: nat)
    requires i <= j <= |raw|
    ensures Offset(raw, i) <= Offset(raw, j)
    decreases j - i
  {
    if i < j {
      OffsetStep(raw, i);
      OffsetMonotone(raw, i + 1, j);
    }
  }

  /**
   * Token `i` of the stream: id `i`, the type reported for it, its offset
   * the lengths before it added up, so the next token starts right after
   * it; its text is the slice of the source at that offset, cut short to the
   * rest of the source (or empty) where the source runs out.
   */
  lemma TokenShape(source: string, raw: seq<RawToken>, i: nat)
    requires i < |raw|
    ensures var t := Tokens(source, raw)[i];
      && t.id == i && t.kind == raw[i].kind && t.offset == Offset(raw, i)
      && Offset(raw, i + 1) == t.offset + raw[i].len
      && |t.text| <= raw[i].len
      && (Offset(raw, i) + raw[i].len <= |source| ==> t.text == source[Offset(raw, i)..Offset(raw, i) + raw[i].len])
      && (Offset(raw, i) < |source| < Offset(raw, i) + raw[i].len ==> t.text == source[Offset(raw, i)..])
      && (|source| <= Offset(raw, i) ==> t.text == [])
  {
    OffsetStep(raw, i);
  }

  /** While the lengths fit the source, the texts of the first `j` tokens spell out its prefix. */
  lemma {:induction false} TextsPrefix(source: string, raw: seq<RawToken>, j: nat)
    requires j <= |raw| && Offset(raw, j) <= |source|
    ensures Texts(Tokens(source, raw)[..j]) == source[..Offset(raw, j)]
  {
    if j > 0 {
      var ts := Tokens(source, raw);
      var before := Offset(raw, j - 1);
      OffsetStep(raw, j - 1);
      TextsPrefix(source, raw, j - 1);
      assert ts[..j][..j - 1] == ts[..j - 1];
      assert Texts(ts[..j]) == Texts(ts[..j - 1]) + ts[j - 1].text;
      TokenShape(source, raw, j - 1);
      assert ts[j - 1].text == source[before..Offset(raw, j)];
      assert source[..before] + source[before..Offset(raw, j)] == source[..Offset(raw, j)];
    }
  }

  /** When the token lengths add up to the length of the source, the token texts reassemble it. */
  lemma Reassembly(source: string, raw: seq<RawToken>)
    requires SumLengths(raw) == |source|
    ensures Texts(Tokens(source, raw)) == source
  {
    assert raw[..|raw|] == raw;
    TextsPrefix(source, raw, |raw|);
    assert Tokens(source, raw)[..|raw|] == Tokens(source, raw);
  }
}
