/** `expandPost`: the "Read More" button of a blog post swaps the excerpt for the full text
    and back. */
module Blog {
  import opened Styles

  const ExpandedLabel := "Read Less <i class=\"fas fa-chevron-up\"></i>"
  const CollapsedLabel := "Read More"

  /** The inline `display` of the excerpt and of the full text, and the button's markup. */
  datatype Post = Post(excerpt: Display, full: Display, button: string)

  /** The post with the full text shown. */
  predicate Expanded(p: Post)
  {
    p == Post(DisplayNone, DisplayBlock, ExpandedLabel)
  }

  /** The post with the excerpt shown. */
  predicate Collapsed(p: Post)
  {
    p == Post(DisplayBlock, DisplayNone, CollapsedLabel)
  }

  /** One click: a post whose full text is hidden is expanded; any other is collapsed. */
  function Toggle(p: Post): (r: Post)
    ensures p.full == DisplayNone ==> Expanded(r)
    ensures p.full != DisplayNone ==> Collapsed(r)
  {
    if p.full == DisplayNone then Post(DisplayNone, DisplayBlock, ExpandedLabel)
    else Post(DisplayBlock, DisplayNone, CollapsedLabel)
  }

  /** After the first click the post alternates: two clicks bring it back, and exactly one of
      the excerpt and the full text is shown. */
  lemma ToggleAlternates(p: Post)
    ensures Toggle(Toggle(Toggle(p))) == Toggle(p)
    ensures Expanded(Toggle(p)) != Collapsed(Toggle(p))
    ensures (Toggle(p).excerpt == DisplayBlock) != (Toggle(p).full == DisplayBlock)
  {
  }

  /** A post whose full text has no inline `display` yet is collapsed by the first click, not
      expanded, whatever a stylesheet does: the handler reads the inline style only. */
  lemma FirstClickOnUnstyledPostCollapses(excerpt: Display, button: string)
    ensures Collapsed(Toggle(Post(excerpt, DisplayUnset, button)))
  {
  }

  /** The button's handler on one post. */
  class PostView {
    var post: Post

    constructor (p: Post)
      ensures post == p
    {
      post := p;
    }

    method ExpandPost()
      modifies this
      ensures post == Toggle(old(post))
    {
      if post.full == DisplayNone {
        post := Post(DisplayNone, DisplayBlock, ExpandedLabel);
      } else {
        post := Post(DisplayBlock, DisplayNone, CollapsedLabel);
      }
    }
  }
}
