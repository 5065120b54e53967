/** The cache keys of one project, and that no two of them are the same string. */
module ProjectKeys {

  datatype Key =
    | Body(project: string, json: bool)
    | Stale(project: string, json: bool)
    | Discovered(project: string, json: bool)
    | Ready(project: string, json: bool)
    | NotFound(project: string)
    | ETag(project: string)
    | LastModified(project: string)

  function Format(json: bool): string {
    if json then "json" else "html"
  }

  function Tail(k: Key): string {
    match k
    case Body(_, json) => Format(json)
    case Stale(_, json) => Format(json) + ":stale"
    case Discovered(_, json) => Format(json) + ":metadata-discovered"
    case Ready(_, json) => Format(json) + ":metadata-ready"
    case NotFound(_) => "404"
    case ETag(_) => "etag"
    case LastModified(_) => "lastmod"
  }

  function Render(k: Key): string {
    "simple:" + k.project + ":" + Tail(k)
  }

  lemma TailsDiffer(j: Key, k: Key)
    requires Tail(j) == Tail(k) && j.project == k.project
    ensures j == k
  {
    assert Tail(j)[0] == Tail(k)[0] && |Tail(j)| == |Tail(k)|;
    if |Tail(j)| > 17 {
      assert Tail(j)[14] == Tail(k)[14];
    }
  }

  lemma TailStarts(k: Key)
    ensures Tail(k) != "" && Tail(k)[0] != 's' && Tail(k)[0] != 'm'
  {
  }

  lemma OnlyColon(k: Key, i: nat)
    requires i < |Tail(k)| && Tail(k)[i] == ':'
    ensures i == 4 && |Tail(k)| > 5 && (Tail(k)[5] == 's' || Tail(k)[5] == 'm')
  {
    match k {
      case Stale(_, json) => CutAfterFormat(json, "stale", i);
      case Discovered(_, json) => CutAfterFormat(json, "metadata-discovered", i);
      case Ready(_, json) => CutAfterFormat(json, "metadata-ready", i);
      case _ =>
    }
  }

  lemma CutAfterFormat(json: bool, word: string, i: nat)
    requires word != "" && ':' !in word
    requires i < 5 + |word| && (Format(json) + (":" + word))[i] == ':'
    ensures i == 4 && (Format(json) + (":" + word))[5] == word[0]
  {
    var tail := Format(json) + (":" + word);
    assert forall n :: 0 <= n < 4 ==> tail[n] == Format(json)[n];
    assert forall n :: 4 < n < |tail| ==> tail[n] == word[n - 5];
  }

  /** What follows a colon inside a tail is itself no tail. */
  lemma RestIsNoTail(j: Key, k: Key, i: nat)
    requires i < |Tail(j)| && Tail(j)[i] == ':'
    ensures Tail(j)[i + 1..] != Tail(k)
  {
    OnlyColon(j, i);
    TailStarts(k);
    hide Tail;
    assert Tail(j)[i + 1..][0] == Tail(j)[5];
  }

  /** Two ways to cut one string at a colon. */
  lemma TwoCuts(a: string, s: string, b: string, t: string)
    requires a + ":" + s == b + ":" + t && |a| <= |b|
    ensures |a| == |b| ==> a == b && s == t
    ensures |a| < |b| ==> |b| - |a| <= |s| && s[|b| - |a| - 1] == ':' && s[|b| - |a|..] == t
  {
    ghost var whole := a + ":" + s;
    assert whole[..|a|] == a && whole[|a| + 1..] == s;
    assert whole[..|b|] == b && whole[|b|] == ':' && whole[|b| + 1..] == t;
    if |a| < |b| {
      assert whole[|b|] == s[|b| - |a| - 1];
      assert whole[|b| + 1..] == s[|b| - |a|..];
    }
  }

  /** Two different keys never share a string, whatever the projects are called. */
  lemma RenderIsInjective(j: Key, k: Key)
    requires Render(j) == Render(k)
    ensures j == k
  {
    hide Tail;
    assert Render(j)[7..] == j.project + ":" + Tail(j);
    assert Render(k)[7..] == k.project + ":" + Tail(k);
    hide Render;
    var shorter, longer := if |j.project| <= |k.project| then j else k, if |j.project| <= |k.project| then k else j;
    TwoCuts(shorter.project, Tail(shorter), longer.project, Tail(longer));
    if |shorter.project| < |longer.project| {
      RestIsNoTail(shorter, longer, |longer.project| - |shorter.project| - 1);
    } else {
      TailsDiffer(shorter, longer);
    }
  }
}
