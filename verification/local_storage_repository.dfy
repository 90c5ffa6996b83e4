/** The local-directory backend: article URLs become file names by escaping
    `/` and `:` as the placeholder tokens `[SLASH]` and `[COLON]`, and the
    listing turns file names back into URLs.

    The directory is a map from file name to file content; the folder
    itself (which must exist and be a directory before the backend is built)
    is implicit. */
module LocalStorageRepository {
  import opened Wrappers
  import opened Text
  import opened Ordering
  import opened Collections
  import StorageRepository

  const SlashToken := "[SLASH]"
  const ColonToken := "[COLON]"

  /** `escape_save_path`: every `/` becomes `[SLASH]`, then every `:` becomes
      `[COLON]`. The result is a single path component. */
  function EscapeSavePath(path: string): (name: string)
    ensures '/' !in name && ':' !in name
  {
    var slashed := Replace(path, "/", SlashToken);
    ReplaceCharRemoves(path, '/', SlashToken);
    ReplaceCharRemoves(slashed, ':', ColonToken);
    Replace(slashed, ":", ColonToken)
  }

  /** Escaping keeps every character other than `/` and `:`, and adds only
      the tokens' characters: a NUL is in the name exactly when it is in the
      path. */
  lemma EscapeKeepsNul(path: string)
    ensures '\0' in EscapeSavePath(path) <==> '\0' in path
  {
    var slashed := Replace(path, "/", SlashToken);
    if '\0' in path {
      ReplaceCharKeeps(path, '/', SlashToken, '\0');
      ReplaceCharKeeps(slashed, ':', ColonToken, '\0');
    }
  }

  /** `restore_save_path`: every `[SLASH]` becomes `/`, then every `[COLON]`
      becomes `:`. */
  function RestoreSavePath(name: string): string
  {
    Replace(Replace(name, SlashToken, "/"), ColonToken, ":")
  }

  /** The text contains neither placeholder token. */
  predicate TokenFree(s: string)
  {
    !Contains(s, SlashToken) && !Contains(s, ColonToken)
  }

  /** A text avoids any pattern whose first character it does not contain. */
  lemma {:induction false} AvoidsByFirstChar(a: string, b: string)
    requires |b| > 0 && b[0] !in a
    ensures Avoids(a, b)
    decreases |a|
  {
    if |a| > 0 {
      assert a[0] != b[0];
      AvoidsByFirstChar(a[1..], b);
    }
  }

  lemma SlashAvoidsColon()
    ensures Avoids(SlashToken, ColonToken)
  {
    AvoidsByFirstChar(SlashToken[1..], ColonToken);
    assert SlashToken[1] != ColonToken[1];
  }

  lemma ColonAvoidsSlash()
    ensures Avoids(ColonToken, SlashToken)
  {
    AvoidsByFirstChar(ColonToken[1..], SlashToken);
    assert SlashToken[1] != ColonToken[1];
  }

  lemma TokensDoNotOverlapThemselves()
    ensures Avoids(SlashToken[1..], SlashToken) && Avoids(ColonToken[1..], ColonToken)
  {
    AvoidsByFirstChar(SlashToken[1..], SlashToken);
    AvoidsByFirstChar(ColonToken[1..], ColonToken);
  }

  /** Neither token holds an escaped character. */
  lemma TokensHoldNoEscapedChar()
    ensures '/' !in SlashToken && ':' !in SlashToken && '/' !in ColonToken && ':' !in ColonToken
  {
  }

  /** Restoring an escaped path gives the path back, provided the path did
      not already contain a placeholder token. */
  lemma RestoreEscape(path: string)
    requires TokenFree(path)
    ensures RestoreSavePath(EscapeSavePath(path)) == path
  {
    // the round trip rests on these facts: neither token overlaps itself or
    // the other, and neither holds an escaped character
    SlashAvoidsColon();
    ColonAvoidsSlash();
    TokensDoNotOverlapThemselves();
    TokensHoldNoEscapedChar();
    var coloned := Replace(path, ":", ColonToken);
    ReplaceCharsCommute(path, '/', SlashToken, ':', ColonToken);
    assert EscapeSavePath(path) == Replace(coloned, "/", SlashToken);
    if Contains(coloned, SlashToken) {
      NoNewOccurrence(path, ':', ColonToken, SlashToken);
    }
    EscapeRoundTrip(coloned, '/', SlashToken);
    EscapeRoundTrip(path, ':', ColonToken);
  }

  /** On token-free paths escaping is injective: two articles never share a
      file. */
  lemma EscapeInjective(a: string, b: string)
    requires TokenFree(a) && TokenFree(b)
    requires EscapeSavePath(a) == EscapeSavePath(b)
    ensures a == b
  {
    RestoreEscape(a);
    RestoreEscape(b);
  }

  /** A path without `/` and `:` is its own file name. */
  lemma EscapeIdentity(path: string)
    requires '/' !in path && ':' !in path
    ensures EscapeSavePath(path) == path
  {
    ContainsChar(path, '/');
    ContainsChar(path, ':');
  }

  /** A name without placeholder tokens restores to itself. */
  lemma RestoreIdentity(name: string)
    requires TokenFree(name)
    ensures RestoreSavePath(name) == name
  {
  }

  /** Without the token-free condition escaping is not injective: the path
      `a/b` and the path `a[SLASH]b` are saved to the same file. */
  lemma EscapeCollision()
    ensures EscapeSavePath("a/b") == EscapeSavePath("a[SLASH]b") == "a[SLASH]b"
  {
    EscapeIdentity("a[SLASH]b");
    SlashOfCollision();
    ContainsChar("a[SLASH]b", ':');
    assert Replace("a[SLASH]b", ":", ColonToken) == "a[SLASH]b";
  }

  lemma SlashOfCollision()
    ensures Replace("a/b", "/", SlashToken) == "a[SLASH]b"
  {
    assert "a/b" == "a" + "/" + "b";
    ReplaceCharConcat("a" + "/", "b", '/', SlashToken);
    ReplaceCharConcat("a", "/", '/', SlashToken);
    ContainsChar("a", '/');
    ContainsChar("b", '/');
    assert IsPrefix("/", "/");
  }

  /** The first character of a file name is `.` exactly when the path's is. */
  lemma EscapeHead(path: string)
    requires |path| > 0
    ensures |EscapeSavePath(path)| > 0
    ensures EscapeSavePath(path)[0] == '.' <==> path[0] == '.'
  {
    var slashed := Replace(path, "/", SlashToken);
    assert |slashed| > 0 && (slashed[0] == '.' <==> path[0] == '.') by {
      if path[0] == '/' {
        assert IsPrefix("/", path);
      }
    }
    if slashed[0] == ':' {
      assert IsPrefix(":", slashed);
    }
  }

  /** The directory: file name to file content. */
  datatype Directory = Directory(files: map<string, string>)

  /** `glob("*")` does not match names starting with a dot. */
  predicate Hidden(name: string)
  {
    |name| > 0 && name[0] == '.'
  }

  /** Names for which `open(folder + "/" + name, "w")` opens the folder itself
      or its parent, and raises. */
  predicate NamesDirectory(name: string)
  {
    name == "" || name == "." || name == ".."
  }

  /** Names for which `open(..., "w")` raises: those that name a directory,
      and those holding a NUL character (`ValueError: embedded null byte`). */
  predicate Unopenable(name: string)
  {
    NamesDirectory(name) || '\0' in name
  }

  /** `save_article(html, filename)`: writes `html` to the file named by the
      escaped `filename`, truncating any previous content (mode `"w"`);
      `None` when the write raises. */
  function SaveArticle(dir: Directory, html: string, filename: string): (r: Option<Directory>)
    ensures r.None? <==> Unopenable(EscapeSavePath(filename))
    ensures r.Some? ==> r.value.files.Keys == dir.files.Keys + {EscapeSavePath(filename)}
    ensures r.Some? ==> r.value.files[EscapeSavePath(filename)] == html
    ensures r.Some? ==> forall n :: n in dir.files && n != EscapeSavePath(filename) ==>
                         r.value.files[n] == dir.files[n]
  {
    var name := EscapeSavePath(filename);
    if Unopenable(name) then None
    else Some(Directory(dir.files[name := html]))
  }

  /** `sorted(glob(...))` over the folder, reduced to file names: the visible names,
      ascending. All paths share the folder prefix, so sorting the paths
      sorts the names. */
  ghost function ListedNames(dir: Directory): (names: seq<string>)
    ensures Sorted(names) && NoDuplicates(names)
    ensures forall n :: n in names <==> n in dir.files && !Hidden(n)
  {
    var visible := SetToSeq(set n | n in dir.files && !Hidden(n));
    var names := Sort(visible);
    SameElements(visible, names);
    NoDuplicatesPreserved(visible, names);
    names
  }

  /** A rearrangement of a list has the same elements. */
  lemma SameElements(a: seq<string>, b: seq<string>)
    requires multiset(a) == multiset(b)
    ensures forall x :: x in a <==> x in b
  {
    forall x
      ensures x in a <==> x in b
    {
      assert x in a <==> x in multiset(a);
      assert x in b <==> x in multiset(b);
    }
  }

  /** A rearrangement of a list without duplicates has none. */
  lemma NoDuplicatesPreserved(a: seq<string>, b: seq<string>)
    requires NoDuplicates(a) && multiset(a) == multiset(b)
    ensures NoDuplicates(b)
  {
    forall i, j | 0 <= i < j < |b|
      ensures b[i] != b[j]
    {
      if b[i] == b[j] {
        TwoCopies(b, i, j);
        AtMostOneCopy(a, b[i]);
      }
    }
  }

  lemma TwoCopies(s: seq<string>, i: nat, j: nat)
    requires i < j < |s| && s[i] == s[j]
    ensures multiset(s)[s[i]] >= 2
  {
    assert s == s[..i] + [s[i]] + s[i + 1..j] + [s[j]] + s[j + 1..];
  }

  lemma {:induction false} AtMostOneCopy(s: seq<string>, x: string)
    requires NoDuplicates(s)
    ensures multiset(s)[x] <= 1
    decreases |s|
  {
    if |s| > 0 {
      assert s == [s[0]] + s[1..];
      AtMostOneCopy(s[1..], x);
      if s[0] == x {
        assert x !in s[1..];
      }
    }
  }

  /** `get_saved_article_urls`: the restored name of every listed file, in
      the order of the sorted escaped names. */
  ghost function GetSavedArticleUrls(dir: Directory): (urls: seq<string>)
    ensures |urls| == |ListedNames(dir)|
    ensures forall i :: 0 <= i < |urls| ==> urls[i] == RestoreSavePath(ListedNames(dir)[i])
  {
    var names := ListedNames(dir);
    seq(|names|, i requires 0 <= i < |names| => RestoreSavePath(names[i]))
  }

  /** Every visible file is listed, as the URL its name restores to. */
  lemma VisibleFileIsListed(dir: Directory, n: string)
    requires n in dir.files && !Hidden(n)
    ensures RestoreSavePath(n) in GetSavedArticleUrls(dir)
  {
    var names := ListedNames(dir);
    var i :| 0 <= i < |names| && names[i] == n;
    assert GetSavedArticleUrls(dir)[i] == RestoreSavePath(n);
  }

  /** The listing holds exactly the URLs the visible files' names restore
      to: every listed URL comes from a visible file, and every visible
      file is listed. */
  lemma ListingIsVisibleFiles(dir: Directory)
    ensures forall u :: u in GetSavedArticleUrls(dir) <==>
              exists n :: n in dir.files && !Hidden(n) && u == RestoreSavePath(n)
  {
    var urls := GetSavedArticleUrls(dir);
    forall u
      ensures u in urls <==> exists n :: n in dir.files && !Hidden(n) && u == RestoreSavePath(n)
    {
      if u in urls {
        var i :| 0 <= i < |urls| && urls[i] == u;
        assert ListedNames(dir)[i] in ListedNames(dir);
      }
      if n :| n in dir.files && !Hidden(n) && u == RestoreSavePath(n) {
        VisibleFileIsListed(dir, n);
      }
    }
  }

  /** After saving under a token-free key that does not start with a dot
      and holds no NUL, the listing contains the key itself, so the crawl
      recognises the article as saved. */
  lemma SavedArticleIsListed(dir: Directory, html: string, key: string)
    requires TokenFree(key) && |key| > 0 && key[0] != '.' && '\0' !in key
    ensures SaveArticle(dir, html, key).Some?
    ensures key in GetSavedArticleUrls(SaveArticle(dir, html, key).value)
  {
    EscapeKeepsNul(key);
    EscapeHead(key);
    RestoreEscape(key);
    VisibleFileIsListed(SaveArticle(dir, html, key).value, EscapeSavePath(key));
  }

  /** Saving never removes a URL from the listing. */
  lemma SaveKeepsListedUrls(dir: Directory, html: string, key: string)
    requires SaveArticle(dir, html, key).Some?
    ensures forall u :: u in GetSavedArticleUrls(dir) ==>
              u in GetSavedArticleUrls(SaveArticle(dir, html, key).value)
  {
    var after := SaveArticle(dir, html, key).value;
    forall u | u in GetSavedArticleUrls(dir)
      ensures u in GetSavedArticleUrls(after)
    {
      var urls := GetSavedArticleUrls(dir);
      var i :| 0 <= i < |urls| && urls[i] == u;
      var n := ListedNames(dir)[i];
      assert n in ListedNames(dir);
      VisibleFileIsListed(after, n);
    }
  }

  /** The local directory as a storage backend. */
  ghost function Repository(): StorageRepository.Repository<Directory>
  {
    StorageRepository.Repository(SaveArticle, GetSavedArticleUrls)
  }
}
