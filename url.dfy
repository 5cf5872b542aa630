/**
 * The rewrite of a Christian Science Monitor article address to its text
 * edition: an address on www.csmonitor.com gets "text_edition/" inserted
 * after every "www.csmonitor.com/"; any other address is returned as it is.
 */
module TextEditionUrl {
  import opened Strings

  const Host: string := "www.csmonitor.com"
  const HostPath: string := Host + "/"
  const TextEditionPath: string := HostPath + "text_edition/"

  /**
   * convert_to_text_edition_url: the address never gets shorter, and one with
   * no "www.csmonitor.com/" in it comes back as it was.
   */
  function ConvertToTextEditionUrl(url: string): (r: string)
    ensures |url| <= |r|
    ensures !Contains(url, HostPath) ==> r == url
  {
    if !Contains(url, Host) then url
    else
      assert !Contains(url, HostPath) ==> ReplaceAll(url, HostPath, TextEditionPath) == url by {
        if !Contains(url, HostPath) {
          ReplaceAbsent(url, HostPath, TextEditionPath);
        }
      }
      ReplaceAll(url, HostPath, TextEditionPath)
  }

  /**
   * Each "www.csmonitor.com/" becomes 13 characters longer, and nothing else
   * changes length.
   */
  lemma LengthGrowth(url: string)
    ensures |ConvertToTextEditionUrl(url)| == |url| + 13 * Count(url, HostPath)
  {
    if !Contains(url, Host) {
      if Contains(url, HostPath) {
        ContainsStart(url, Host, "/");
      }
      CountPositiveIffContains(url, HostPath);
    } else {
      ReplaceLength(url, HostPath, TextEditionPath);
    }
  }

  /**
   * The address is returned unchanged exactly when it holds no
   * "www.csmonitor.com/": other sites, and the bare host not followed by a
   * slash, pass through.
   */
  lemma UnchangedIff(url: string)
    ensures ConvertToTextEditionUrl(url) == url <==> !Contains(url, HostPath)
  {
    LengthGrowth(url);
    CountPositiveIffContains(url, HostPath);
    if !Contains(url, HostPath) && Contains(url, Host) {
      ReplaceAbsent(url, HostPath, TextEditionPath);
    }
  }

  /**
   * The text between occurrences of "www.csmonitor.com/" is kept, in order:
   * the address and its rewrite are the same pieces, joined by the old path
   * and by the text-edition path.
   */
  lemma PiecesKept(url: string)
    requires Contains(url, Host)
    ensures var pieces := Split(url, HostPath);
      url == Join(HostPath, pieces) && ConvertToTextEditionUrl(url) == Join(TextEditionPath, pieces) &&
      forall i :: 0 <= i < |pieces| ==> !Contains(pieces[i], HostPath)
  {
    JoinSplit(url, HostPath);
    SplitPiecesFree(url, HostPath);
    ReplaceIsSplitJoin(url, HostPath, TextEditionPath);
  }

  /**
   * "www.csmonitor.com/" cannot overlap itself: no proper suffix of it is
   * also a prefix, since only its last character is a '/'.  So two
   * occurrences in an address never share a character, and every occurrence
   * is one of the joints that PiecesKept rewrites.
   */
  lemma HostPathNoOverlap()
    ensures forall i :: 0 < i < |HostPath| ==> HostPath[i..] != HostPath[..|HostPath| - i]
  {
    var n := |HostPath|;
    assert forall k :: 0 <= k < n - 1 ==> HostPath[k] != '/';
    forall i | 0 < i < n
      ensures HostPath[i..] != HostPath[..n - i]
    {
      assert HostPath[i..][n - i - 1] == '/';
      assert HostPath[..n - i][n - i - 1] == HostPath[n - i - 1];
    }
  }

  /**
   * There is no guard against converting twice: a converted address still
   * holds "www.csmonitor.com/", so converting it again inserts a second
   * "text_edition/".
   */
  lemma NotIdempotent(url: string)
    requires Contains(url, HostPath)
    ensures ConvertToTextEditionUrl(ConvertToTextEditionUrl(url)) != ConvertToTextEditionUrl(url)
  {
    var once := ConvertToTextEditionUrl(url);
    ContainsStart(url, Host, "/");
    ReplacePresent(url, HostPath, TextEditionPath);
    ContainsStart(once, HostPath, "text_edition/");
    UnchangedIff(once);
  }

  /** An address that starts with the host path and has no other occurrence gets exactly one insertion. */
  lemma StartsWithHostPath(rest: string)
    requires !Contains(rest, HostPath)
    ensures ConvertToTextEditionUrl(HostPath + rest) == TextEditionPath + rest
  {
    var url := HostPath + rest;
    Halves(HostPath, rest);
    assert url == Host + ("/" + rest);
    ContainsPrefix(Host, "/" + rest);
    assert ConvertToTextEditionUrl(url) == ReplaceAll(url, HostPath, TextEditionPath);
    assert ReplaceAll(url, HostPath, TextEditionPath) == TextEditionPath + ReplaceAll(rest, HostPath, TextEditionPath);
    ReplaceAbsent(rest, HostPath, TextEditionPath);
  }

  /** An article path gets "text_edition/" after the host. */
  lemma ArticleExample()
    ensures ConvertToTextEditionUrl(HostPath + "World") == TextEditionPath + "World"
  {
    NotContainsShort("World", HostPath);
    StartsWithHostPath("World");
  }

  /** Converting a converted path inserts "text_edition/" a second time. */
  lemma TwiceExample()
    ensures ConvertToTextEditionUrl(TextEditionPath + "USA") == TextEditionPath + "text_edition/USA"
  {
    var rest := "text_edition/" + "USA";
    assert TextEditionPath + "USA" == HostPath + rest;
    NotContainsShort(rest, HostPath);
    StartsWithHostPath(rest);
  }

  /** The bare host with no slash after it is left alone. */
  lemma BareHostExample()
    ensures ConvertToTextEditionUrl(Host) == Host
  {
    NotContainsShort(Host, HostPath);
    UnchangedIff(Host);
  }
}
