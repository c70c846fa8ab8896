/**
 * How `generate_blog` turns the language model's raw reply into the final
 * title and article: strip the reply, cut it at the first `---CONTENT---`,
 * and let a title the user supplied win over the generated one.
 */
module Generation {
  import opened Wrappers
  import opened Text

  /** The token the prompt asks the model to put between title and article. */
  const Delimiter: string := "---CONTENT---"

  /** The title used when the reply has no delimiter and the user gave none. */
  const FallbackTitle: string := "A Blog Post About Your Video"

  /** Python truthiness of the request's `title` field: present and non-empty. */
  predicate Given(title: Option<string>) {
    title.Some? && title.value != ""
  }

  datatype Article = Article(title: string, content: string)

  /** The final title and content for a reply, given the user's optional title. */
  function ParseReply(reply: string, userTitle: Option<string>): (a: Article)
    ensures Given(userTitle) ==> a.title == userTitle.value
  {
    Cut(Strip(reply), Delimiter, FallbackTitle, userTitle)
  }

  /**
   * The split and the title choice, applied to the already stripped reply
   * `full`, with separator `sep` and fallback title `fallback`. The view
   * only ever passes `Delimiter` and `FallbackTitle`; keeping them as
   * parameters lets the lemmas below reason about the split without
   * unfolding the two string literals, and the lemmas after them apply
   * the results to the literals.
   */
  function Cut(full: string, sep: string, fallback: string, userTitle: Option<string>): (a: Article)
    ensures Given(userTitle) ==> a.title == userTitle.value
  {
    match FindFirst(full, sep)
    case Some(i) =>
      Article(if Given(userTitle) then userTitle.value else Strip(full[..i]),
              Strip(full[i + |sep|..]))
    case None =>
      Article(if Given(userTitle) then userTitle.value else fallback, full)
  }

  lemma CutAtFirst(full: string, sep: string, fallback: string, userTitle: Option<string>, i: int)
    requires FirstOccurrence(full, sep, i)
    ensures Cut(full, sep, fallback, userTitle).content == Strip(full[i + |sep|..])
    ensures !Given(userTitle) ==> Cut(full, sep, fallback, userTitle).title == Strip(full[..i])
  {
    FindFirstIsFirst(full, sep, i);
  }

  lemma CutWithoutSeparator(full: string, sep: string, fallback: string, userTitle: Option<string>)
    requires !Contains(full, sep)
    ensures Cut(full, sep, fallback, userTitle)
            == Article(if Given(userTitle) then userTitle.value else fallback, full)
  {
    FindFirstFindsFirst(full, sep);
  }

  lemma CutKeepsLaterSeparators(full: string, sep: string, fallback: string,
                                userTitle: Option<string>, i: int, j: int)
    requires sep != [] && NoEdgeSpace(sep)
    requires FirstOccurrence(full, sep, i) && OccursAt(full, sep, j) && i + |sep| <= j
    ensures Contains(Cut(full, sep, fallback, userTitle).content, sep)
  {
    FindFirstIsFirst(full, sep, i);
    var k := StrippedSuffixKeepsOccurrence(full, sep, i + |sep|, j);
    CutContentKeeps(full, sep, fallback, userTitle, i, k);
  }

  lemma CutContentKeeps(full: string, sep: string, fallback: string, userTitle: Option<string>,
                        i: int, k: int)
    requires FindFirst(full, sep) == Some(i)
    requires OccursAt(Strip(full[i + |sep|..]), sep, k)
    ensures OccursAt(Cut(full, sep, fallback, userTitle).content, sep, k)
  {
    assert Cut(full, sep, fallback, userTitle).content == Strip(full[i + |sep|..]);
  }

  lemma CutToParts(s: string, sep: string, fallback: string, title: string, content: string)
    requires FirstOccurrence(s, sep, |title|)
    requires s[..|title|] == title && s[|title| + |sep|..] == content
    requires NoEdgeSpace(title) && NoEdgeSpace(content)
    ensures Cut(s, sep, fallback, None) == Article(title, content)
  {
    CutAtFirst(s, sep, fallback, None, |title|);
    StripKeeps(title);
    StripKeeps(content);
  }

  lemma CutRoundTrip(title: string, sep: string, content: string, fallback: string)
    requires sep != [] && NoEdgeSpace(sep) && NoEdgeSpace(title) && NoEdgeSpace(content)
    requires !Contains(title + sep[..|sep| - 1], sep)
    ensures NoEdgeSpace(title + sep + content)
    ensures Cut(title + sep + content, sep, fallback, None) == Article(title, content)
  {
    JoinNoEdgeSpace(title, sep, content);
    JoinFirstOccurrence(title, sep, content);
    CutToParts(title + sep + content, sep, fallback, title, content);
  }

  lemma DelimiterHasNoEdgeSpace()
    ensures |Delimiter| == 13 && NoEdgeSpace(Delimiter)
  {
  }

  /**
   * With the delimiter present, the content is the stripped text after its
   * first occurrence and, without a user title, the title is the stripped
   * text before it.
   */
  lemma ContentFollowsFirstDelimiter(reply: string, userTitle: Option<string>, i: int)
    requires FirstOccurrence(Strip(reply), Delimiter, i)
    ensures ParseReply(reply, userTitle).content == Strip(Strip(reply)[i + |Delimiter|..])
    ensures !Given(userTitle) ==> ParseReply(reply, userTitle).title == Strip(Strip(reply)[..i])
  {
    CutAtFirst(Strip(reply), Delimiter, FallbackTitle, userTitle, i);
  }

  /** Delimiters after the first one stay inside the content. */
  lemma LaterDelimitersStayInContent(reply: string, userTitle: Option<string>, i: int, j: int)
    requires FirstOccurrence(Strip(reply), Delimiter, i)
    requires OccursAt(Strip(reply), Delimiter, j) && i + |Delimiter| <= j
    ensures Contains(ParseReply(reply, userTitle).content, Delimiter)
  {
    DelimiterHasNoEdgeSpace();
    CutKeepsLaterSeparators(Strip(reply), Delimiter, FallbackTitle, userTitle, i, j);
  }

  /** Without the delimiter the whole stripped reply is the content. */
  lemma NoDelimiterFallsBack(reply: string, userTitle: Option<string>)
    requires !Contains(Strip(reply), Delimiter)
    ensures ParseReply(reply, userTitle).content == Strip(reply)
    ensures ParseReply(reply, userTitle).title
            == if Given(userTitle) then userTitle.value else FallbackTitle
  {
    CutWithoutSeparator(Strip(reply), Delimiter, FallbackTitle, userTitle);
  }

  /**
   * A reply in the format the prompt asks for parses back to its parts: a
   * title and an article, each already stripped, around one delimiter. The
   * title must not run into the delimiter so as to complete an earlier one.
   */
  lemma FormatRoundTrip(title: string, content: string)
    requires NoEdgeSpace(title) && NoEdgeSpace(content)
    requires !Contains(title + Delimiter[..|Delimiter| - 1], Delimiter)
    ensures ParseReply(title + Delimiter + content, None) == Article(title, content)
  {
    DelimiterHasNoEdgeSpace();
    CutRoundTrip(title, Delimiter, content, FallbackTitle);
    StripKeeps(title + Delimiter + content);
  }

  /** The generated title may come out empty: nothing guards against it. */
  lemma EmptyTitleIsPossible()
    ensures ParseReply("---CONTENT---An article.", None) == Article("", "An article.")
  {
    assert "---CONTENT---An article." == "" + Delimiter + "An article.";
    FormatRoundTrip("", "An article.");
  }

  /** The content may still hold the delimiter. */
  lemma ContentMayHoldDelimiter()
    ensures ParseReply("T---CONTENT---A---CONTENT---B", None) == Article("T", "A---CONTENT---B")
    ensures Contains(ParseReply("T---CONTENT---A---CONTENT---B", None).content, Delimiter)
  {
    PlainTitleDoesNotRunIn();
    assert "T---CONTENT---A---CONTENT---B" == "T" + Delimiter + "A---CONTENT---B";
    FormatRoundTrip("T", "A---CONTENT---B");
  }

  lemma PlainTitleDoesNotRunIn()
    ensures NoEdgeSpace("T") && NoEdgeSpace("A---CONTENT---B")
    ensures !Contains("T" + Delimiter[..|Delimiter| - 1], Delimiter)
    ensures OccursAt("A---CONTENT---B", Delimiter, 1)
  {
    assert ("T" + Delimiter[..12])[0] != Delimiter[0];
  }
}
