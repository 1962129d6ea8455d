/** Page tokens and the paginated listing of node statuses. */
module Pagination {
  import opened Options
  import opened Decimals
  import Base64

  const DEFAULT_SIZE := 100

  const MAX_INT := 0x7FFF_FFFF_FFFF_FFFF
  const MIN_INT := -0x8000_0000_0000_0000

  type Int64 = i: int | MIN_INT <= i <= MAX_INT

  /** Two's complement wrap-around of a 64-bit integer operation. */
  function Wrap(i: int): Int64 {
    (i - MIN_INT) % 0x1_0000_0000_0000_0000 + MIN_INT
  }

  datatype Token = Token(page: Int64, size: Int64)

  datatype TokenResult = Parsed(token: Token) | BadEncoding | BadQuery | InvalidToken

  // ---------- query strings ----------

  /** The part before the first `c`, and the part after it; without `c`, everything and nothing. */
  function Cut(s: string, c: char): (r: (string, string))
    ensures s != "" ==> |r.1| < |s|
    ensures s == "" ==> r == ("", "")
  {
    if s == "" then ("", "")
    else if s[0] == c then ("", s[1..])
    else var rest := Cut(s[1..], c); ([s[0]] + rest.0, rest.1)
  }

  function HexValue(c: char): Option<nat> {
    if '0' <= c <= '9' then Some((c - '0') as nat)
    else if 'a' <= c <= 'f' then Some((c - 'a') as nat + 10)
    else if 'A' <= c <= 'F' then Some((c - 'A') as nat + 10)
    else None
  }

  function Prepend(c: char, rest: Option<string>): Option<string> {
    match rest case None => None case Some(s) => Some([c] + s)
  }

  /** Query unescaping: `%XX` is a byte, `+` a space. */
  function Unescape(s: string): Option<string> {
    if s == "" then Some("")
    else if s[0] == '%' then
      if |s| < 3 || HexValue(s[1]) == None || HexValue(s[2]) == None then None
      else Prepend((HexValue(s[1]).value % 16 * 16 + HexValue(s[2]).value % 16) as char, Unescape(s[3..]))
    else Prepend(if s[0] == '+' then ' ' else s[0], Unescape(s[1..]))
  }

  /** One pair: a semicolon or a bad escape makes it malformed. */
  function ParsePair(pair: string): Option<(string, string)> {
    var (key, value) := Cut(pair, '=');
    if ';' in pair then None
    else
      match (Unescape(key), Unescape(value))
      case (Some(k), Some(v)) => Some((k, v))
      case _ => None
  }

  /** The key-value pairs of a query, in order; empty pairs are skipped, one malformed pair spoils the whole query. */
  function ParseQuery(q: string): Option<seq<(string, string)>>
    decreases |q|
  {
    if q == "" then Some([])
    else
      var (pair, rest) := Cut(q, '&');
      var later := ParseQuery(rest);
      if later == None then None
      else if pair == "" then later
      else if ParsePair(pair) == None then None
      else Some([ParsePair(pair).value] + later.value)
  }

  /** The first value of a key. */
  function Get(pairs: seq<(string, string)>, key: string): Option<string> {
    if pairs == [] then None else if pairs[0].0 == key then Some(pairs[0].1) else Get(pairs[1..], key)
  }

  /** A decimal integer that fits 64 bits. */
  function Atoi(s: string): Option<Int64> {
    match ParseInt(s)
    case Some(i) => if MIN_INT <= i <= MAX_INT then Some(i) else None
    case None => None
  }

  // ---------- tokens ----------

  function WithDefault(size: Int64): Int64 {
    if size == 0 then DEFAULT_SIZE else size
  }

  function TokenText(page: Int64, size: Int64): string {
    "page=" + IntText(page) + "&size=" + IntText(size)
  }

  function EncodeToken(page: Int64, size: Int64): string {
    TokenTextIsBytes(page, WithDefault(size));
    Base64.Encode(TokenText(page, WithDefault(size)))
  }

  /** The token that a query spells. */
  function QueryToken(text: string): TokenResult {
    match ParseQuery(text)
    case None => BadQuery
    case Some(pairs) =>
      match (Get(pairs, "page"), Get(pairs, "size"))
      case (Some(p), Some(s)) =>
        (match (Atoi(p), Atoi(s))
         case (Some(page), Some(size)) => Parsed(Token(page, size))
         case _ => InvalidToken)
      case _ => InvalidToken
  }

  function DecodeToken(b64enc: string): TokenResult {
    if b64enc == "" then Parsed(Token(0, DEFAULT_SIZE))
    else
      match Base64.Decode(b64enc)
      case None => BadEncoding
      case Some(text) => QueryToken(text)
  }

  class PageToken {
    var page: Int64
    var size: Int64

    constructor (page: Int64, size: Int64)
      ensures this.page == page && this.size == size
    {
      this.page, this.size := page, size;
    }

    /** Encoding fills in the default size of the receiver. */
    method Encode() returns (s: string)
      modifies this`size
      ensures size == WithDefault(old(size))
      ensures s == EncodeToken(page, old(size)) && s != ""
      ensures DecodeToken(s) == Parsed(Token(page, size))
    {
      TokenRoundTrip(page, size);
      if size == 0 {
        size := DEFAULT_SIZE;
      }
      TokenTextIsBytes(page, size);
      return Base64.Encode(TokenText(page, size));
    }
  }

  /** The characters of printed integers. */
  predicate IsPlain(c: char) {
    IsDigit(c) || c == '-'
  }

  lemma IntTextIsBytes(i: int)
    ensures forall k :: 0 <= k < |IntText(i)| ==> IsPlain(IntText(i)[k])
  {
    var digits := Digits(if i < 0 then -i else i);
    assert forall k :: 0 <= k < |digits| ==> IsDigit(digits[k]);
  }

  lemma TokenTextIsBytes(page: Int64, size: Int64)
    ensures TokenText(page, size) != "" && Base64.IsByteString(TokenText(page, size))
  {
    hide IntText;
    IntTextIsBytes(page);
    IntTextIsBytes(size);
  }

  lemma {:induction false} CutAt(a: string, c: char, b: string)
    requires c !in a
    ensures Cut(a + [c] + b, c) == (a, b)
  {
    var whole := a + [c] + b;
    if a == "" {
      assert whole == [c] + b;
    } else {
      CutAt(a[1..], c, b);
      assert whole[1..] == a[1..] + [c] + b;
      assert [a[0]] + a[1..] == a;
    }
  }

  lemma {:induction false} CutNowhere(a: string, c: char)
    requires c !in a
    ensures Cut(a, c) == (a, "")
  {
    if a != "" {
      CutNowhere(a[1..], c);
      assert [a[0]] + a[1..] == a;
    }
  }

  lemma {:induction false} UnescapePlain(s: string)
    requires '%' !in s && '+' !in s
    ensures Unescape(s) == Some(s)
  {
    if s != "" {
      UnescapePlain(s[1..]);
      assert s == [s[0]] + s[1..];
    }
  }

  /** Text free of the characters that mean something in a query. */
  predicate Inert(s: string) {
    '&' !in s && '=' !in s && '%' !in s && '+' !in s && ';' !in s
  }

  lemma PairParses(key: string, value: string)
    requires Inert(key) && Inert(value)
    ensures ParsePair(key + ['='] + value) == Some((key, value))
  {
    CutAt(key, '=', value);
    UnescapePlain(key);
    UnescapePlain(value);
  }

  lemma LastPair(pair: string)
    requires pair != "" && '&' !in pair && ParsePair(pair).Some?
    ensures ParseQuery(pair) == Some([ParsePair(pair).value])
  {
    hide ParsePair, Cut;
    CutNowhere(pair, '&');
    assert [ParsePair(pair).value] + [] == [ParsePair(pair).value];
  }

  lemma QueryStep(pair: string, rest: string)
    requires pair != "" && '&' !in pair && ParsePair(pair).Some? && ParseQuery(rest).Some?
    ensures ParseQuery(pair + ['&'] + rest) == Some([ParsePair(pair).value] + ParseQuery(rest).value)
  {
    hide ParsePair, Cut;
    CutAt(pair, '&', rest);
  }

  lemma TwoPairs(k1: string, v1: string, k2: string, v2: string)
    requires Inert(k1) && Inert(v1) && Inert(k2) && Inert(v2)
    ensures ParseQuery((k1 + ['='] + v1) + ['&'] + (k2 + ['='] + v2)) == Some([(k1, v1), (k2, v2)])
  {
    PairParses(k1, v1);
    PairParses(k2, v2);
    var p1, p2 := k1 + ['='] + v1, k2 + ['='] + v2;
    assert '&' !in p1 && '&' !in p2;
    QueryOf(p1, p2, (k1, v1), (k2, v2));
  }

  lemma QueryOf(p1: string, p2: string, r1: (string, string), r2: (string, string))
    requires p1 != "" && '&' !in p1 && ParsePair(p1) == Some(r1)
    requires p2 != "" && '&' !in p2 && ParsePair(p2) == Some(r2)
    ensures ParseQuery(p1 + ['&'] + p2) == Some([r1, r2])
  {
    hide ParsePair, ParseQuery;
    LastPair(p2);
    QueryStep(p1, p2);
    assert [r1] + [r2] == [r1, r2];
  }

  lemma AtoiInverts(i: Int64)
    ensures Atoi(IntText(i)) == Some(i)
  {
    ParseIntInverts(i);
  }

  lemma TokenTextParses(page: Int64, size: Int64)
    ensures ParseQuery(TokenText(page, size)) == Some([("page", IntText(page)), ("size", IntText(size))])
  {
    hide ParseQuery, IntText;
    var p, s := IntText(page), IntText(size);
    IntTextIsBytes(page);
    IntTextIsBytes(size);
    TwoPairs("page", p, "size", s);
    assert TokenText(page, size) == ("page" + ['='] + p) + ['&'] + ("size" + ['='] + s);
  }

  lemma GetBoth(k1: string, v1: string, k2: string, v2: string)
    requires k1 != k2
    ensures var pairs := [(k1, v1), (k2, v2)]; Get(pairs, k1) == Some(v1) && Get(pairs, k2) == Some(v2)
  {
    assert [(k1, v1), (k2, v2)][1..] == [(k2, v2)];
  }

  /** Decoding a token gives back its page and its size, with the default filled in. */
  lemma TokenRoundTrip(page: Int64, size: Int64)
    ensures EncodeToken(page, size) != ""
    ensures DecodeToken(EncodeToken(page, size)) == Parsed(Token(page, WithDefault(size)))
  {
    hide ParseQuery, IntText, Base64.Encode, Base64.Decode, Base64.AllInAlphabet, Atoi, TokenText, Get;
    var s := WithDefault(size);
    TokenTextIsBytes(page, s);
    var text := TokenText(page, s);
    Base64.EncodeInAlphabet(text);
    Base64.DecodeInverts(text);
    TokenTextParses(page, s);
    GetBoth("page", IntText(page), "size", IntText(s));
    AtoiInverts(page);
    AtoiInverts(s);
  }

  // ---------- tokens spelled out ----------

  /** The text behind a token, and the two defaults of 100. */
  lemma TokenSpelled(page: Int64, size: Int64)
    ensures size != 0 ==> Base64.Decode(EncodeToken(page, size)) == Some("page=" + IntText(page) + "&size=" + IntText(size))
    ensures EncodeToken(page, 0) == EncodeToken(page, 100)
    ensures DecodeToken("") == Parsed(Token(0, 100))
  {
    hide IntText, Base64.Encode, Base64.Decode;
    if size != 0 {
      TokenTextIsBytes(page, size);
      Base64.DecodeInverts(TokenText(page, size));
    }
  }

  /** Tokens of encoded queries are read as those queries. */
  lemma EncodedQuery(text: string)
    requires text != "" && Base64.IsByteString(text)
    ensures DecodeToken(Base64.Encode(text)) == QueryToken(text)
  {
    hide Base64.Encode, Base64.Decode, QueryToken;
    Base64.EncodeInAlphabet(text);
    Base64.DecodeInverts(text);
  }

  /** `page=v&size=w` with plain values, in either order: both must be integers of 64 bits. */
  lemma PageAndSize(v: string, w: string)
    requires Inert(v) && Inert(w)
    ensures QueryToken(("page" + ['='] + v) + ['&'] + ("size" + ['='] + w))
         == QueryToken(("size" + ['='] + w) + ['&'] + ("page" + ['='] + v))
         == if Atoi(v).Some? && Atoi(w).Some? then Parsed(Token(Atoi(v).value, Atoi(w).value)) else InvalidToken
  {
    hide ParseQuery, Atoi, Get;
    TwoPairs("page", v, "size", w);
    TwoPairs("size", w, "page", v);
    GetBoth("page", v, "size", w);
    GetBoth("size", w, "page", v);
  }

  /** A query without a page, or without a size, spells no token; a semicolon spoils a query; of two values of one key the
      first is taken. */
  lemma IncompleteQueries(v: string, w: string, x: string)
    requires Inert(v) && Inert(w) && Inert(x)
    ensures QueryToken("page" + ['='] + v) == QueryToken("size" + ['='] + v) == InvalidToken
    ensures QueryToken((("page" + ['='] + v) + [';']) + ['&'] + ("size" + ['='] + w)) == BadQuery
    ensures Get([("page", v), ("page", w), ("size", x)], "page") == Some(v)
  {
    hide ParsePair, ParseQuery;
    PairParses("page", v);
    PairParses("size", v);
    LastPair("page" + ['='] + v);
    LastPair("size" + ['='] + v);
    GetOne("page", v, "size");
    GetOne("size", v, "page");
    SemicolonSpoils(("page" + ['='] + v) + [';'], "size" + ['='] + w);
  }

  lemma GetOne(key: string, value: string, other: string)
    requires other != key
    ensures Get([(key, value)], other) == None
  {
    assert [(key, value)][1..] == [];
  }

  lemma SemicolonSpoils(pair: string, rest: string)
    requires ';' in pair && '&' !in pair
    ensures ParseQuery(pair + ['&'] + rest) == None
  {
    CutAt(pair, '&', rest);
  }

  /** Query escapes: two hexadecimal digits after a percent sign, in either case, and a plus sign for a space. */
  lemma QueryEscapes(rest: string)
    ensures Unescape("%2f" + rest) == Unescape("%2F" + rest) == Prepend('/', Unescape(rest))
    ensures Unescape("%5A" + rest) == Prepend('Z', Unescape(rest))
    ensures Unescape("+" + rest) == Prepend(' ', Unescape(rest))
    ensures Unescape("%4") == None && Unescape("%4g") == None
  {
    hide Prepend;
    assert ("%2f" + rest)[3..] == rest && ("%2F" + rest)[3..] == rest && ("%5A" + rest)[3..] == rest && ("+" + rest)[1..] == rest;
  }

  /** Empty pairs are skipped, and a key without a value has the empty one. */
  lemma ShortPairs(query: string, key: string)
    requires Inert(key)
    ensures ParseQuery(['&'] + query) == ParseQuery(query)
    ensures ParsePair(key) == Some((key, ""))
  {
    assert (['&'] + query)[1..] == query;
    CutNowhere(key, '=');
    UnescapePlain(key);
  }

  /** Text that is no base64 is refused. */
  lemma BadEncodings()
    ensures DecodeToken("A") == BadEncoding && DecodeToken("invalid token") == BadEncoding
  {
    hide QueryToken;
    assert Base64.WithoutBreaks("A") == "A" by { assert "A"[1..] == ""; }
    var t := "invalid token";
    Unbroken(t);
    Base64.Refused(t, 7);
  }

  lemma {:induction false} Unbroken(t: string)
    requires '\n' !in t && '\r' !in t
    ensures Base64.WithoutBreaks(t) == t
  {
    if t != "" {
      Unbroken(t[1..]);
      assert t == [t[0]] + t[1..];
    }
  }

  /** Integer arithmetic is that of 64-bit two's complement. */
  lemma WrapsAround(i: int)
    ensures -9223372036854775808 <= i <= 9223372036854775807 ==> Wrap(i) == i
    ensures Wrap(i + 18446744073709551616) == Wrap(i)
    ensures -9223372036854775808 <= Wrap(i) <= 9223372036854775807
  {
  }

  // ---------- listing ----------

  datatype Listing<T> = Listed(stats: seq<T>, total: Int64) | ListError

  datatype Page<T> = Page(stats: seq<T>, next: string, total: Int64) | PageError

  type ListFn<T> = (Int64, Int64) -> Listing<T>

  /** The page a token stands for; integer arithmetic wraps around. */
  function FetchPage<T>(t: Token, list: ListFn<T>): Page<T> {
    var nextPage := Wrap(t.page + 1);
    var end := Wrap(nextPage * t.size);
    match list(Wrap(t.page * t.size), end)
    case ListError => PageError
    case Listed(stats, total) => Page(stats, if total > end then EncodeToken(nextPage, t.size) else "", total)
  }

  /** The answer to a request: the empty token is the first page. */
  function ListPage<T>(pageSize: Int64, token: string, list: ListFn<T>): Page<T> {
    if token == "" then FetchPage(Token(0, WithDefault(pageSize)), list)
    else
      match DecodeToken(token)
      case Parsed(t) => FetchPage(t, list)
      case _ => PageError
  }

  /** The token of a request. */
  function Requested(pageSize: Int64, token: string): TokenResult {
    if token == "" then Parsed(Token(0, WithDefault(pageSize))) else DecodeToken(token)
  }

  /** The page of a request. There is a page exactly when the token and the window are good, there is a next token exactly
      when more remains beyond the window, and the next token stands for the following page of the same size. */
  method ListNodeStatuses<T>(pageSize: Int64, token: string, list: ListFn<T>) returns (r: Page<T>)
    ensures r == ListPage(pageSize, token, list)
    ensures r.Page? <==> var q := Requested(pageSize, token);
                         q.Parsed? && list(Wrap(q.token.page * q.token.size), Wrap(Wrap(q.token.page + 1) * q.token.size)).Listed?
    ensures r.Page? ==> var t := Requested(pageSize, token).token;
                        && (r.next != "" <==> r.total > Wrap(Wrap(t.page + 1) * t.size))
                        && (r.next != "" ==> DecodeToken(r.next) == Parsed(Token(Wrap(t.page + 1), WithDefault(t.size))))
  {
    hide DecodeToken, EncodeToken, Wrap;
    var t := new PageToken(0, WithDefault(pageSize));
    if token != "" {
      var parsed := DecodeToken(token);
      if !parsed.Parsed? {
        return PageError;
      }
      t := new PageToken(parsed.token.page, parsed.token.size);
    }
    var start, end := Wrap(t.page * t.size), Wrap(Wrap(t.page + 1) * t.size);
    var listing := list(start, end);
    if listing.ListError? {
      return PageError;
    }
    var next := "";
    if listing.total > end {
      var nextToken := new PageToken(Wrap(t.page + 1), t.size);
      next := nextToken.Encode();
    }
    return Page(listing.stats, next, listing.total);
  }

  // ---------- traversals ----------

  /** A list function over a list: the requested window, cut off at the end of the list, or an error when the window
      does not start inside the list or ends before it starts. */
  function Window<T>(items: seq<T>, start: int, end: int): Listing<T>
    requires |items| <= MAX_INT
  {
    if 0 <= start <= |items| && start <= end then Listed(items[start..Min(end, |items|)], |items|) else ListError
  }

  function Min(a: int, b: int): int {
    if a < b then a else b
  }

  function WindowFn<T>(items: seq<T>): ListFn<T>
    requires |items| <= MAX_INT
  {
    (start: Int64, end: Int64) => Window(items, start, end)
  }

  function Offset(k: nat, size: int): int {
    k * size
  }

  /** The number of pages of size `size`: max(1, ceil(total / size)). */
  function PageCount(total: nat, size: nat): nat
    requires size > 0
  {
    if total <= size then 1 else (total + size - 1) / size
  }

  /** `k` pages of `size` come before the last item, or there are none before it. */
  lemma PageCountMeaning(total: nat, size: nat, k: nat)
    requires size > 0
    ensures k < PageCount(total, size) <==> k == 0 || Offset(k, size) < total
  {
    var n := PageCount(total, size);
    if total > size {
      DivMod(total + size - 1, size);
      if k < n {
        MulStep(size, k, n);
      } else if n < k {
        MulStep(size, n, k);
      }
    } else if k > 0 {
      assert k * size >= size by { MulStep(size, 0, k); }
    }
  }

  lemma OffsetStep(k: nat, size: nat)
    ensures Offset(0, size) == 0
    ensures 0 <= Offset(k, size)
    ensures Offset(k + 1, size) == Offset(k, size) + size
    ensures size > 0 ==> k <= Offset(k, size)
  {
    if size > 0 && k > 0 {
      assert k * size == k * (size - 1) + k;
    }
  }

  lemma WrapFits(i: int)
    ensures MIN_INT <= i <= MAX_INT ==> Wrap(i) == i
    ensures MAX_INT < i <= 2 * MAX_INT + 1 ==> Wrap(i) < 0
  {
  }

  /** The token a client holds before fetching page `k`. */
  function TokenOf(k: nat, size: Int64): string
    requires k <= MAX_INT
  {
    if k == 0 then "" else EncodeToken(k, size)
  }

  lemma TokenOfDecodes<T>(pageSize: Int64, k: nat, list: ListFn<T>)
    requires k <= MAX_INT
    ensures var size := WithDefault(pageSize);
            ListPage(pageSize, TokenOf(k, size), list) == FetchPage(Token(k, size), list)
  {
    hide EncodeToken, DecodeToken, FetchPage;
    if k > 0 {
      TokenRoundTrip(k, WithDefault(pageSize));
    }
  }

  /** Page `k` of a list: its window, and a next token exactly when more remains; an error when the window's end
      overflows. */
  lemma PageIs<T>(items: seq<T>, size: Int64, k: nat)
    requires |items| <= MAX_INT && size > 0 && (k == 0 || Offset(k, size) < |items|)
    ensures k < MAX_INT && 0 <= Offset(k, size) <= |items|
    ensures var end := Offset(k + 1, size);
            FetchPage(Token(k, size), WindowFn(items))
            == if end > MAX_INT then PageError
               else Page(items[Offset(k, size)..Min(end, |items|)],
                         if end < |items| then TokenOf(k + 1, size) else "",
                         |items|)
  {
    OffsetStep(k, size);
    hide EncodeToken, Wrap;
    WrapFits(k + 1);
    WrapFits(Offset(k, size));
    WrapFits(Offset(k + 1, size));
  }

  /** A negative page size is always rejected by such a list function. */
  lemma NegativeSize<T>(items: seq<T>, size: Int64)
    requires |items| <= MAX_INT && size < 0
    ensures FetchPage(Token(0, size), WindowFn(items)) == PageError
  {
    hide Wrap, EncodeToken;
    WrapFits(1);
    WrapFits(0);
    WrapFits(size);
    assert 0 * size == 0 && 1 * size == size;
  }

  /** A client's complete traversal: the empty token first, then each next token, until it is empty. */
  ghost predicate IsTraversal<T(!new)>(items: seq<T>, pageSize: Int64, pages: seq<Page<T>>)
    requires |items| <= MAX_INT
  {
    && IsPartialTraversal(items, pageSize, pages)
    && pages[|pages| - 1].next == ""
  }

  ghost predicate IsPartialTraversal<T(!new)>(items: seq<T>, pageSize: Int64, pages: seq<Page<T>>)
    requires |items| <= MAX_INT
  {
    && |pages| > 0
    && pages[0] == ListPage(pageSize, "", WindowFn(items))
    && (forall i :: 0 <= i < |pages| ==> pages[i].Page?)
    && (forall i :: 0 <= i < |pages| - 1 ==> pages[i].next != "")
    && (forall i :: 0 < i < |pages| ==> pages[i] == ListPage(pageSize, pages[i - 1].next, WindowFn(items)))
  }

  function Concat<T>(pages: seq<Page<T>>): seq<T>
    requires forall i :: 0 <= i < |pages| ==> pages[i].Page?
  {
    if pages == [] then [] else Concat(pages[..|pages| - 1]) + pages[|pages| - 1].stats
  }

  /** What the `k`-th page of a traversal must be. */
  ghost predicate IsPage<T(!new)>(items: seq<T>, size: Int64, k: nat, page: Page<T>)
    requires |items| <= MAX_INT
  {
    && size > 0
    && (k == 0 || Offset(k, size) < |items|)
    && k < MAX_INT
    && 0 <= Offset(k, size) <= Offset(k + 1, size) <= MAX_INT
    && Offset(k, size) <= |items|
    && page == Page(items[Offset(k, size)..Min(Offset(k + 1, size), |items|)],
                    if Offset(k + 1, size) < |items| then TokenOf(k + 1, size) else "",
                    |items|)
  }

  lemma {:induction false} PageOfTraversal<T(!new)>(items: seq<T>, pageSize: Int64, pages: seq<Page<T>>, k: nat)
    requires |items| <= MAX_INT && IsPartialTraversal(items, pageSize, pages) && k < |pages|
    ensures IsPage(items, WithDefault(pageSize), k, pages[k])
  {
    hide FetchPage, ListPage, WithDefault, WindowFn, Offset, EncodeToken;
    var size := WithDefault(pageSize);
    if k == 0 {
      OffsetStep(0, 0);
      SizeNotZero(pageSize);
      if size < 0 {
        NegativeSize(items, size);
      }
    } else {
      PageOfTraversal(items, pageSize, pages, k - 1);
      assert pages[k - 1].next != "";
    }
    TokenOfDecodes(pageSize, k, WindowFn(items));
    PageIs(items, size, k);
    OffsetStep(k, size);
  }

  lemma SizeNotZero(pageSize: Int64)
    ensures WithDefault(pageSize) != 0
  {
  }

  lemma ExtendPrefix<T>(items: seq<T>, a: int, b: int)
    requires 0 <= a <= |items| && a <= b
    ensures items[..a] + items[a..Min(b, |items|)] == items[..Min(b, |items|)]
  {
  }

  lemma {:induction false} PrefixCovered<T(!new)>(items: seq<T>, pageSize: Int64, pages: seq<Page<T>>, n: nat)
    requires |items| <= MAX_INT && IsPartialTraversal(items, pageSize, pages) && 0 < n <= |pages|
    ensures 0 <= Offset(n, WithDefault(pageSize))
    ensures Concat(pages[..n]) == items[..Min(Offset(n, WithDefault(pageSize)), |items|)]
  {
    hide ListPage, WithDefault, WindowFn, Offset, TokenOf;
    var size := WithDefault(pageSize);
    PageOfTraversal(items, pageSize, pages, n - 1);
    OffsetStep(n - 1, size);
    assert pages[..n][..n - 1] == pages[..n - 1];
    if n > 1 {
      PrefixCovered(items, pageSize, pages, n - 1);
    }
    ExtendPrefix(items, Offset(n - 1, size), Offset(n, size));
  }

  /** A complete traversal visits contiguous windows whose concatenation is the whole list, in exactly
      max(1, ceil(total / size)) calls. */
  lemma TraversalCovers<T(!new)>(items: seq<T>, pageSize: Int64, pages: seq<Page<T>>)
    requires |items| <= MAX_INT && IsTraversal(items, pageSize, pages)
    ensures var size := WithDefault(pageSize);
            size > 0 && |pages| == PageCount(|items|, size) && Offset(|pages|, size) <= MAX_INT
    ensures forall k :: 0 <= k < |pages| ==> IsPage(items, WithDefault(pageSize), k, pages[k])
    ensures Concat(pages) == items
  {
    hide ListPage, WithDefault, WindowFn, Offset, PageCount, Concat, IsPage, TokenOf;
    var size := WithDefault(pageSize);
    var n := |pages|;
    forall k | 0 <= k < n
      ensures IsPage(items, size, k, pages[k])
    {
      PageOfTraversal(items, pageSize, pages, k);
    }
    LastPage(items, size, n - 1, pages[n - 1]);
    PrefixCovered(items, pageSize, pages, n);
    assert pages[..n] == pages;
  }

  lemma LastPage<T(!new)>(items: seq<T>, size: Int64, k: nat, page: Page<T>)
    requires |items| <= MAX_INT && IsPage(items, size, k, page) && page.next == ""
    ensures size > 0 && k + 1 == PageCount(|items|, size) && |items| <= Offset(k + 1, size) <= MAX_INT
  {
    hide Offset, PageCount, TokenOf;
    TokenNotEmpty(k + 1, size);
    PageCountMeaning(|items|, size, k);
    PageCountMeaning(|items|, size, k + 1);
  }

  lemma TokenNotEmpty(k: nat, size: Int64)
    requires 0 < k <= MAX_INT
    ensures TokenOf(k, size) != ""
  {
    hide DecodeToken, EncodeToken;
    TokenRoundTrip(k, size);
  }

  /** The first `n` pages, when none of their windows overflows. */
  lemma {:induction false} PartialTraversal<T(!new)>(items: seq<T>, pageSize: Int64, n: nat) returns (pages: seq<Page<T>>)
    requires |items| <= MAX_INT && WithDefault(pageSize) > 0
    requires 0 < n <= PageCount(|items|, WithDefault(pageSize)) && Offset(n, WithDefault(pageSize)) <= MAX_INT
    ensures |pages| == n && IsPartialTraversal(items, pageSize, pages)
  {
    hide ListPage, WithDefault, WindowFn, Offset, TokenOf, FetchPage, PageCount;
    var size := WithDefault(pageSize);
    PageCountMeaning(|items|, size, n - 1);
    PageIs(items, size, n - 1);
    TokenOfDecodes(pageSize, n - 1, WindowFn(items));
    OffsetStep(n - 1, size);
    if n == 1 {
      FirstToken(size);
      pages := [ListPage(pageSize, "", WindowFn(items))];
    } else {
      var before := PartialTraversal(items, pageSize, n - 1);
      PageOfTraversal(items, pageSize, before, n - 2);
      TokenNotEmpty(n - 1, size);
      pages := before + [ListPage(pageSize, before[n - 2].next, WindowFn(items))];
    }
  }

  lemma FirstToken(size: Int64)
    ensures TokenOf(0, size) == ""
  {
  }

  /** A client can traverse the list exactly when the page size is positive and the end of the last window fits 64 bits. */
  lemma TraversalExists<T(!new)>(items: seq<T>, pageSize: Int64)
    requires |items| <= MAX_INT
    ensures (exists pages: seq<Page<T>> :: IsTraversal(items, pageSize, pages))
            <==> var size := WithDefault(pageSize); size > 0 && Offset(PageCount(|items|, size), size) <= MAX_INT
  {
    hide ListPage, WithDefault, WindowFn, Offset, PageCount, IsPartialTraversal;
    var size := WithDefault(pageSize);
    if pages: seq<Page<T>> :| IsTraversal(items, pageSize, pages) {
      TraversalCovers(items, pageSize, pages);
    }
    if size > 0 && Offset(PageCount(|items|, size), size) <= MAX_INT {
      var n := PageCount(|items|, size);
      PageCountMeaning(|items|, size, 0);
      PageCountMeaning(|items|, size, n);
      var pages := PartialTraversal(items, pageSize, n);
      PageOfTraversal(items, pageSize, pages, n - 1);
      assert IsTraversal(items, pageSize, pages);
    }
  }

  /** Concrete failures: two pages of 2^62 items each end at 2^63, and -1 is no page size for any list. */
  lemma UntraversableLists<T(!new)>(huge: seq<T>, any: seq<T>)
    requires |huge| == 0x4000_0000_0000_0001 && |any| <= MAX_INT
    ensures !exists pages: seq<Page<T>> :: IsTraversal(huge, 0x4000_0000_0000_0000, pages)
    ensures !exists pages: seq<Page<T>> :: IsTraversal(any, -1, pages)
  {
    hide IsTraversal;
    TraversalExists(huge, 0x4000_0000_0000_0000);
    TraversalExists(any, -1);
    assert PageCount(0x4000_0000_0000_0001, 0x4000_0000_0000_0000) == 2;
  }

  /** Without a page size pages have 100 items. */
  lemma DefaultPage<T>(items: seq<T>)
    requires 100 < |items| <= MAX_INT
    ensures var r := ListPage(0, "", WindowFn(items));
            r.Page? && r.stats == items[..100] && r.total == |items| && DecodeToken(r.next) == Parsed(Token(1, 100))
  {
    hide DecodeToken, EncodeToken, FetchPage;
    PageIs(items, 100, 0);
    OffsetStep(0, 100);
    TokenRoundTrip(1, 100);
  }
}
