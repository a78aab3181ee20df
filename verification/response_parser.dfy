/** The two best-effort extractors applied to the language model's free-text
    replies in `main.py`: `parse_xml_data`, which pulls the text between a
    pair of tags, and `parse_json`, which cuts out the bracketed array and
    hands it to a JSON decoder. A missing marker, or a payload the decoder
    rejects with `JSONDecodeError`, degrades to an empty result instead of
    raising. */
module ResponseParser {
  import opened Wrappers
  import opened PyStr

  // ---------------------------------------------------------------------
  // parse_xml_data
  // ---------------------------------------------------------------------

  function OpenTag(name: string): string {
    "<" + name + ">"
  }

  function CloseTag(name: string): string {
    "</" + name + ">"
  }

  /** A tag name that cannot itself start a tag or mark a closing one, as
      the names the program uses (`grade`, `skill`) cannot. */
  predicate PlainName(name: string) {
    '<' !in name && '/' !in name
  }

  /** `parse_xml_data(name, response)`: the stripped text between the first
      opening tag and the first closing tag, or `''`. */
  function ParseXmlData(name: string, response: string): (r: string)
    ensures Trimmed(r)
  {
    var startTag := OpenTag(name);
    var endTag := CloseTag(name);
    var startIndex := Find(response, startTag);
    var endIndex := Find(response, endTag);
    if startIndex == -1 || endIndex == -1 then ""
    else
      var contentStart := startIndex + |startTag|;
      Strip(Slice(response, contentStart, endIndex))
  }

  /** There is only one first occurrence. */
  lemma FirstAtUnique(s: string, p: string, i: int, k: int)
    requires IsFirstAt(s, p, i) && IsFirstAt(s, p, k)
    ensures i == k
  {
  }

  /** `find` reports the first occurrence. */
  lemma FindFirst(s: string, p: string, i: int)
    requires IsFirstAt(s, p, i)
    ensures Find(s, p) == i
  {
    FindSpec(s, p);
    assert OccursAt(s, p, i);
    FirstAtUnique(s, p, i, Find(s, p));
  }

  /** `rfind` reports the last occurrence. */
  lemma RFindLast(s: string, p: string, i: int)
    requires IsLastAt(s, p, i)
    ensures RFind(s, p) == i
  {
    RFindSpec(s, p);
    assert OccursAt(s, p, i);
    LastAtUnique(s, p, i, RFind(s, p));
  }

  /** There is only one last occurrence. */
  lemma LastAtUnique(s: string, p: string, i: int, k: int)
    requires IsLastAt(s, p, i) && IsLastAt(s, p, k)
    ensures i == k
  {
  }

  /** The definition of `ParseXmlData` once both tags have been found,
      unfolded as a proof step; it states nothing beyond the definition. */
  lemma XmlFound(name: string, response: string)
    requires Find(response, OpenTag(name)) != -1 && Find(response, CloseTag(name)) != -1
    ensures ParseXmlData(name, response)
            == Strip(Slice(response, Find(response, OpenTag(name)) + |OpenTag(name)|,
                           Find(response, CloseTag(name))))
  {
  }

  /** `XmlFound`, with the two tag positions named (a proof step that only
      unfolds the definition). */
  lemma XmlFoundAt(name: string, response: string, i: int, j: int)
    requires Find(response, OpenTag(name)) == i && Find(response, CloseTag(name)) == j
    requires i != -1 && j != -1
    ensures ParseXmlData(name, response) == Strip(Slice(response, i + |OpenTag(name)|, j))
  {
    XmlFound(name, response);
  }

  /** The stripped slice between the FIRST occurrences of the two tags. */
  lemma XmlFirst(name: string, response: string, i: int, j: int)
    requires IsFirstAt(response, OpenTag(name), i)
    requires IsFirstAt(response, CloseTag(name), j)
    ensures ParseXmlData(name, response) == Strip(Slice(response, i + |OpenTag(name)|, j))
  {
    FindFirst(response, OpenTag(name), i);
    FindFirst(response, CloseTag(name), j);
    XmlFoundAt(name, response, i, j);
  }

  /** When both tags occur, the result is decided by their FIRST
      occurrences alone: the stripped text between the end of the first
      opening tag and the start of the first closing tag, and `''` when
      that closing tag starts before the opening tag's content does. */
  lemma XmlSpan(name: string, response: string, i: int, j: int)
    requires IsFirstAt(response, OpenTag(name), i)
    requires IsFirstAt(response, CloseTag(name), j)
    ensures j < i + |OpenTag(name)| ==> ParseXmlData(name, response) == ""
    ensures i + |OpenTag(name)| <= j ==>
              ParseXmlData(name, response) == Strip(response[i + |OpenTag(name)|..j])
  {
    XmlFirst(name, response, i, j);
    var lo := i + |OpenTag(name)|;
    if lo <= j {
      SliceInside(response, lo, j);
    } else {
      SliceCrossed(response, lo, j);
      StripTrimmed([]);
    }
  }

  /** Without the opening tag or without the closing tag, the result is
      `''`. */
  lemma XmlMissing(name: string, response: string)
    requires !Contains(response, OpenTag(name)) || !Contains(response, CloseTag(name))
    ensures ParseXmlData(name, response) == ""
  {
    FindSpec(response, OpenTag(name));
    FindSpec(response, CloseTag(name));
  }

  /** The result is always a piece of the response. */
  lemma XmlIsPiece(name: string, response: string)
    ensures Contains(response, ParseXmlData(name, response))
  {
    var i := Find(response, OpenTag(name));
    var j := Find(response, CloseTag(name));
    if i == -1 || j == -1 {
      XmlNotFound(name, response);
      assert OccursAt(response, "", 0);
    } else {
      XmlFoundAt(name, response, i, j);
      StrippedSliceIsPiece(response, i + |OpenTag(name)|, j);
    }
  }

  /** The definition of `ParseXmlData` when a tag has not been found,
      unfolded as a proof step. */
  lemma XmlNotFound(name: string, response: string)
    requires Find(response, OpenTag(name)) == -1 || Find(response, CloseTag(name)) == -1
    ensures ParseXmlData(name, response) == ""
  {
  }

  /** A first occurrence stays first when text is appended. */
  lemma FirstAtExtend(s: string, more: string, p: string, i: int)
    requires IsFirstAt(s, p, i)
    ensures IsFirstAt(s + more, p, i)
  {
    var w := s + more;
    assert w[i..i + |p|] == s[i..i + |p|];
    forall j | 0 <= j < i
      ensures !OccursAt(w, p, j)
    {
      assert !OccursAt(s, p, j);
      assert w[j..j + |p|] == s[j..j + |p|];
    }
  }

  /** `find` is unaffected by appended text once the pattern occurs. */
  lemma FindExtend(s: string, more: string, p: string)
    requires Find(s, p) != -1
    ensures Find(s + more, p) == Find(s, p)
  {
    FindSpec(s, p);
    FirstAtExtend(s, more, p, Find(s, p));
    FindFirst(s + more, p, Find(s, p));
  }

  /** Later occurrences of either tag have no effect: once both tags occur
      in a response, appending further text leaves the result unchanged. */
  lemma XmlLaterTextIgnored(name: string, response: string, more: string)
    requires Contains(response, OpenTag(name)) && Contains(response, CloseTag(name))
    ensures ParseXmlData(name, response + more) == ParseXmlData(name, response)
  {
    var i := Find(response, OpenTag(name));
    var j := Find(response, CloseTag(name));
    FindSpec(response, OpenTag(name));
    FindSpec(response, CloseTag(name));
    FindExtend(response, more, OpenTag(name));
    FindExtend(response, more, CloseTag(name));
    XmlExtendFound(name, response, more, i, j);
  }

  lemma XmlExtendFound(name: string, response: string, more: string, i: int, j: int)
    requires Find(response, OpenTag(name)) == i && Find(response, CloseTag(name)) == j
    requires Find(response + more, OpenTag(name)) == i && Find(response + more, CloseTag(name)) == j
    requires i != -1 && 0 <= j <= |response|
    ensures ParseXmlData(name, response + more) == ParseXmlData(name, response)
  {
    SliceExtend(response, more, i + |OpenTag(name)|, j);
    XmlSameSpan(name, response, response + more, i, j);
  }

  /** Two responses whose tags are found at the same places and whose
      spans between them agree give the same result. */
  lemma XmlSameSpan(name: string, a: string, b: string, i: int, j: int)
    requires Find(a, OpenTag(name)) == i && Find(a, CloseTag(name)) == j
    requires Find(b, OpenTag(name)) == i && Find(b, CloseTag(name)) == j
    requires i != -1 && j != -1
    requires Slice(a, i + |OpenTag(name)|, j) == Slice(b, i + |OpenTag(name)|, j)
    ensures ParseXmlData(name, a) == ParseXmlData(name, b)
  {
    XmlFoundAt(name, a, i, j);
    XmlFoundAt(name, b, i, j);
  }

  /** In `pre + OpenTag(name) + value + CloseTag(name) + post` with no `<`
      in `pre`, the first opening tag is the one right after `pre`. */
  lemma OpenTagFirst(pre: string, name: string, value: string, post: string)
    requires '<' !in pre
    ensures IsFirstAt(pre + OpenTag(name) + value + CloseTag(name) + post, OpenTag(name), |pre|)
  {
    var o := OpenTag(name);
    var w := pre + o + value + CloseTag(name) + post;
    assert w[|pre|..|pre| + |o|] == o;
    forall j | 0 <= j < |pre|
      ensures !OccursAt(w, o, j)
    {
      assert w[j] == pre[j];
      if j + |o| <= |w| {
        assert w[j..j + |o|][0] == w[j];
      }
    }
  }

  /** The tagged value sits between the two tags. */
  lemma TaggedValue(pre: string, name: string, value: string, post: string)
    ensures var w := pre + OpenTag(name) + value + CloseTag(name) + post;
            var lo := |pre| + |OpenTag(name)|;
            w[lo..lo + |value|] == value
  {
  }

  /** With no `<` in `pre` or `value` and a plain tag name, the first
      closing tag of `pre + OpenTag(name) + value + CloseTag(name) + post`
      is the one right after `value`. */
  lemma CloseTagFirst(pre: string, name: string, value: string, post: string)
    requires '<' !in pre && '<' !in value && PlainName(name)
    ensures IsFirstAt(pre + OpenTag(name) + value + CloseTag(name) + post,
                      CloseTag(name), |pre| + |OpenTag(name)| + |value|)
  {
    var o := OpenTag(name);
    var c := CloseTag(name);
    var w := pre + o + value + c + post;
    var k := |pre| + |o| + |value|;
    assert w[k..k + |c|] == c;
    forall j | 0 <= j < k
      ensures w[j] != '<' || w[j + 1] != '/'
    {
      if j < |pre| {
        assert w[j] == pre[j];
      } else if j == |pre| {
        assert w[j + 1] == o[1];
        if |name| > 0 {
          assert o[1] == name[0];
        }
      } else if j < |pre| + |o| {
        assert w[j] == o[j - |pre|];
        if j - |pre| < |o| - 1 {
          assert o[j - |pre|] == name[j - |pre| - 1];
        }
      } else {
        assert w[j] == value[j - |pre| - |o|];
      }
    }
    forall j | 0 <= j < k
      ensures !OccursAt(w, c, j)
    {
      if j + |c| <= |w| {
        assert w[j..j + |c|][0] == w[j];
        assert w[j..j + |c|][1] == w[j + 1];
      }
    }
  }

  /** Round trip: a value wrapped in the tags, with prose before and anything
      after, comes back stripped. */
  lemma XmlEmbedded(pre: string, name: string, value: string, post: string)
    requires '<' !in pre && '<' !in value && PlainName(name)
    ensures ParseXmlData(name, pre + OpenTag(name) + value + CloseTag(name) + post) == Strip(value)
  {
    var w := pre + OpenTag(name) + value + CloseTag(name) + post;
    var lo := |pre| + |OpenTag(name)|;
    XmlTagsAt(pre, name, value, post);
    SliceInside(w, lo, lo + |value|);
    TaggedValue(pre, name, value, post);
  }

  /** `XmlFirst` for a response built around one tagged value. */
  lemma XmlTagsAt(pre: string, name: string, value: string, post: string)
    requires '<' !in pre && '<' !in value && PlainName(name)
    ensures var w := pre + OpenTag(name) + value + CloseTag(name) + post;
            var lo := |pre| + |OpenTag(name)|;
            ParseXmlData(name, w) == Strip(Slice(w, lo, lo + |value|))
  {
    var w := pre + OpenTag(name) + value + CloseTag(name) + post;
    OpenTagFirst(pre, name, value, post);
    CloseTagFirst(pre, name, value, post);
    XmlFirstIn(pre, name, value, post, w);
  }

  lemma XmlFirstIn(pre: string, name: string, value: string, post: string, w: string)
    requires w == pre + OpenTag(name) + value + CloseTag(name) + post
    requires IsFirstAt(w, OpenTag(name), |pre|)
    requires IsFirstAt(w, CloseTag(name), |pre| + |OpenTag(name)| + |value|)
    ensures ParseXmlData(name, w)
            == Strip(Slice(w, |pre| + |OpenTag(name)|, |pre| + |OpenTag(name)| + |value|))
  {
    XmlFirst(name, w, |pre|, |pre| + |OpenTag(name)| + |value|);
  }

  // ---------------------------------------------------------------------
  // parse_json
  // ---------------------------------------------------------------------

  /** The response with every line break turned into a space. */
  function Clean(response: string): string {
    Replace(response, '\n', ' ')
  }

  /** Brackets sit in the cleaned response exactly where they sat before. */
  lemma CleanKeepsBrackets(response: string, b: char)
    requires b == '[' || b == ']'
    ensures forall k :: OccursAt(Clean(response), [b], k) <==> OccursAt(response, [b], k)
    ensures Contains(Clean(response), [b]) <==> b in response
  {
    forall k
      ensures OccursAt(Clean(response), [b], k) <==> OccursAt(response, [b], k)
    {
      ReplaceKeepsOccurrences(response, [b], '\n', ' ', k);
    }
    ContainsChar(response, b);
  }

  /** The text `parse_json` hands to the decoder: from the first `[` through
      the last `]` of the cleaned response, or None when a bracket is
      missing. */
  function ArrayText(response: string): (r: Option<string>)
    ensures r.None? <==> ('[' !in response || ']' !in response)
    ensures r.Some? ==> '\n' !in r.value
  {
    var cleaned := Clean(response);
    var startIndex := Find(cleaned, "[");
    var endIndex := RFind(cleaned, "]") + 1;
    CleanKeepsBrackets(response, '[');
    CleanKeepsBrackets(response, ']');
    FindSpec(cleaned, "[");
    RFindSpec(cleaned, "]");
    if startIndex == -1 || endIndex == 0 then None
    else
      ReplaceRemoves(response, '\n', ' ');
      SliceWithout(cleaned, startIndex, endIndex, '\n');
      Some(Slice(cleaned, startIndex, endIndex))
  }

  /** The decoder's input runs from the FIRST `[` through the LAST `]`
      inclusive, with line breaks replaced by spaces. */
  lemma ArraySpan(response: string, i: int, j: int)
    requires IsFirstAt(response, "[", i) && IsLastAt(response, "]", j)
    ensures ArrayText(response) == Some(Slice(Clean(response), i, j + 1))
  {
    var cleaned := Clean(response);
    CleanKeepsBrackets(response, '[');
    CleanKeepsBrackets(response, ']');
    assert IsFirstAt(cleaned, "[", i);
    assert IsLastAt(cleaned, "]", j);
    FindFirst(cleaned, "[", i);
    RFindLast(cleaned, "]", j);
  }

  /** With no `[` in `prefix`, the first `[` of
      `prefix + "[" + body + "]" + suffix` is the one right after `prefix`. */
  lemma ArrayOpensAt(prefix: string, body: string, suffix: string)
    requires '[' !in prefix
    ensures IsFirstAt(prefix + "[" + body + "]" + suffix, "[", |prefix|)
  {
    var w := prefix + "[" + body + "]" + suffix;
    OccursAtChar(w, '[', |prefix|);
    forall k | 0 <= k < |prefix|
      ensures !OccursAt(w, "[", k)
    {
      OccursAtChar(w, '[', k);
      assert w[k] == prefix[k];
    }
  }

  /** With no `]` in `suffix`, the last `]` of
      `prefix + "[" + body + "]" + suffix` is the one right before `suffix`. */
  lemma ArrayClosesAt(prefix: string, body: string, suffix: string)
    requires ']' !in suffix
    ensures IsLastAt(prefix + "[" + body + "]" + suffix, "]", |prefix| + |body| + 1)
  {
    var w := prefix + "[" + body + "]" + suffix;
    var j := |prefix| + |body| + 1;
    OccursAtChar(w, ']', j);
    forall k | j < k
      ensures !OccursAt(w, "]", k)
    {
      OccursAtChar(w, ']', k);
      if k < |w| {
        assert w[k] == suffix[k - j - 1];
      }
    }
  }

  /** The bracketed array is the middle of the response built around it. */
  lemma ArrayPiece(prefix: string, body: string, suffix: string)
    ensures (prefix + "[" + body + "]" + suffix)[|prefix|..|prefix| + |body| + 2] == "[" + body + "]"
  {
    MiddlePiece(prefix, "[" + body + "]", suffix);
    assert prefix + "[" + body + "]" + suffix == prefix + ("[" + body + "]") + suffix;
  }

  /** Cleaning leaves the brackets around the array alone. */
  lemma CleanBracketed(body: string)
    ensures Clean("[" + body + "]") == "[" + Replace(body, '\n', ' ') + "]"
  {
    ReplaceConcat("[" + body, "]", '\n', ' ');
    ReplaceConcat("[", body, '\n', ' ');
    ReplaceAbsent("[", '\n', ' ');
    ReplaceAbsent("]", '\n', ' ');
  }

  /** Cleaning the whole response and cutting out the bracketed array is
      cleaning the array alone. */
  lemma CleanArray(w: string, i: nat, body: string)
    requires i + |body| + 2 <= |w| && w[i..i + |body| + 2] == "[" + body + "]"
    ensures Slice(Clean(w), i, i + |body| + 2) == "[" + Replace(body, '\n', ' ') + "]"
  {
    var hi := i + |body| + 2;
    var bracketed := "[" + body + "]";
    SliceInside(Clean(w), i, hi);
    ReplaceSlice(w, i, hi, '\n', ' ');
    assert Clean(w)[i..hi] == Clean(bracketed);
    CleanBracketed(body);
  }

  /** Round trip of the slicing: with no `[` before the array and no `]`
      after it, the decoder sees exactly the bracketed array, with its line
      breaks turned into spaces. */
  lemma ArrayEmbedded(prefix: string, body: string, suffix: string)
    requires '[' !in prefix && ']' !in suffix
    ensures ArrayText(prefix + "[" + body + "]" + suffix) == Some("[" + Replace(body, '\n', ' ') + "]")
  {
    ArrayOpensAt(prefix, body, suffix);
    ArrayClosesAt(prefix, body, suffix);
    ArrayPiece(prefix, body, suffix);
    ArrayAt(prefix + "[" + body + "]" + suffix, |prefix|, body);
  }

  /** `ArrayEmbedded` for a response `w` whose first `[` at `i` opens
      `"[" + body + "]"` and whose last `]` closes it. */
  lemma ArrayAt(w: string, i: nat, body: string)
    requires i + |body| + 2 <= |w| && w[i..i + |body| + 2] == "[" + body + "]"
    requires IsFirstAt(w, "[", i) && IsLastAt(w, "]", i + |body| + 1)
    ensures ArrayText(w) == Some("[" + Replace(body, '\n', ' ') + "]")
  {
    ArraySpan(w, i, i + |body| + 1);
    CleanArray(w, i, body);
  }

  /** When the last `]` comes before the first `[`, the decoder is handed
      the empty string. */
  lemma ArrayReversed(response: string, i: int, j: int)
    requires IsFirstAt(response, "[", i) && IsLastAt(response, "]", j)
    requires j < i
    ensures ArrayText(response) == Some("")
  {
    ArraySpan(response, i, j);
  }

  /** `parse_json(response)` with `json.loads` passed in as `decode`
      (None where the decoder raises `JSONDecodeError`; other exceptions of
      the decoder are not modelled). A missing bracket or a rejected
      payload gives the empty list; an accepted payload is returned as
      decoded. */
  function ParseJson<V>(decode: string -> Option<seq<V>>, response: string): (r: seq<V>)
    ensures ('[' !in response || ']' !in response) ==> r == []
    ensures forall text :: ArrayText(response) == Some(text) && decode(text).None? ==> r == []
    ensures r != [] ==> ArrayText(response).Some? && decode(ArrayText(response).value) == Some(r)
    ensures ArrayText(response).Some? && decode(ArrayText(response).value).Some? ==>
              r == decode(ArrayText(response).value).value
  {
    match ArrayText(response)
    case None => []
    case Some(text) => decode(text).GetOr([])
  }

  /** Round trip: an array embedded in prose is what `parse_json` returns,
      whenever the decoder accepts it with its line breaks turned into
      spaces. */
  lemma ParseJsonEmbedded<V>(decode: string -> Option<seq<V>>,
                             prefix: string, body: string, suffix: string, v: seq<V>)
    requires '[' !in prefix && ']' !in suffix
    requires decode("[" + Replace(body, '\n', ' ') + "]") == Some(v)
    ensures ParseJson(decode, prefix + "[" + body + "]" + suffix) == v
  {
    ArrayEmbedded(prefix, body, suffix);
  }

  /** With the brackets the wrong way round, a decoder that rejects the
      empty string (as `json.loads` does) makes `parse_json` return `[]`. */
  lemma ParseJsonReversed<V>(decode: string -> Option<seq<V>>, response: string, i: int, j: int)
    requires IsFirstAt(response, "[", i) && IsLastAt(response, "]", j) && j < i
    requires decode("") == None
    ensures ParseJson(decode, response) == []
  {
    ArrayReversed(response, i, j);
  }
}
