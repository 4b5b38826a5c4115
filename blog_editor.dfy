/**
 * The blog editor's form state: title, content, the tag list and the tag
 * being typed, with the handlers that add and remove tags and submit the post.
 */
module Editor {
  import opened Wrappers
  import opened Text

  /** The value handed to the `onSave` callback. */
  datatype Draft = Draft(title: string, content: string, tags: seq<string>)

  /** `tags.filter((_, i) => i !== index)`: drop the element at position `index`, if any. */
  function WithoutIndex(tags: seq<string>, index: int): (r: seq<string>)
    ensures 0 <= index < |tags| ==> r == tags[..index] + tags[index + 1..] && |r| == |tags| - 1
    ensures !(0 <= index < |tags|) ==> r == tags
    decreases |tags|
  {
    if tags == [] then []
    else
      var rest := WithoutIndex(tags[1..], index - 1);
      assert tags == [tags[0]] + tags[1..];
      if index == 0 then rest else [tags[0]] + rest
  }

  /** A tag that `handleAddTag` can produce: non-empty and already trimmed. */
  predicate IsCleanTag(tag: string) {
    tag != "" && Trim(tag) == tag
  }

  /** Every tag the Enter handler appends is clean. */
  lemma TrimmedTagIsClean(input: string)
    requires Trim(input) != ""
    ensures IsCleanTag(Trim(input))
  {
  }

  /** Removing a tag keeps every remaining tag clean. */
  lemma RemovalKeepsClean(tags: seq<string>, index: int)
    requires forall i :: 0 <= i < |tags| ==> IsCleanTag(tags[i])
    ensures forall i :: 0 <= i < |WithoutIndex(tags, index)| ==> IsCleanTag(WithoutIndex(tags, index)[i])
  {
    var r := WithoutIndex(tags, index);
    forall i | 0 <= i < |r| ensures IsCleanTag(r[i]) {
      if 0 <= index < |tags| && i >= index {
        assert r[i] == tags[i + 1];
      } else {
        assert r[i] == tags[i];
      }
    }
  }

  class BlogEditor {
    var title: string
    var content: string
    var tags: seq<string>
    var newTag: string

    /** Tags only enter the list through the Enter handler, so each is clean. */
    ghost predicate Valid()
      reads this
    {
      forall i :: 0 <= i < |tags| ==> IsCleanTag(tags[i])
    }

    /** The component mounts with every field empty. */
    constructor ()
      ensures Valid()
      ensures title == "" && content == "" && tags == [] && newTag == ""
    {
      title, content, tags, newTag := "", "", [], "";
    }

    /** The title input's `onChange`. */
    method SetTitle(value: string)
      requires Valid()
      modifies this
      ensures Valid()
      ensures title == value
      ensures content == old(content) && tags == old(tags) && newTag == old(newTag)
    {
      title := value;
    }

    /** The content textarea's `onChange`. */
    method SetContent(value: string)
      requires Valid()
      modifies this
      ensures Valid()
      ensures content == value
      ensures title == old(title) && tags == old(tags) && newTag == old(newTag)
    {
      content := value;
    }

    /** The tag input's `onChange`. */
    method SetNewTag(value: string)
      requires Valid()
      modifies this
      ensures Valid()
      ensures newTag == value
      ensures title == old(title) && content == old(content) && tags == old(tags)
    {
      newTag := value;
    }

    /**
     * `handleAddTag`: Enter with a non-blank input appends the trimmed input
     * (duplicates included) and clears the input; any other key, or a blank
     * input, changes nothing.
     */
    method HandleAddTag(key: string)
      requires Valid()
      modifies this
      ensures Valid()
      ensures title == old(title) && content == old(content)
      ensures key == "Enter" && Trim(old(newTag)) != "" ==>
        tags == old(tags) + [Trim(old(newTag))] && |tags| == |old(tags)| + 1 && newTag == ""
      ensures !(key == "Enter" && Trim(old(newTag)) != "") ==>
        tags == old(tags) && newTag == old(newTag)
    {
      var tag := Trim(newTag);
      if key == "Enter" && tag != "" {
        TrimmedTagIsClean(newTag);
        tags := tags + [tag];
        newTag := "";
      }
    }

    /** The remove button of the tag at `index`: exactly that one element goes. */
    method RemoveTag(index: int)
      requires Valid()
      modifies this
      ensures Valid()
      ensures tags == WithoutIndex(old(tags), index)
      ensures title == old(title) && content == old(content) && newTag == old(newTag)
    {
      RemovalKeepsClean(tags, index);
      tags := WithoutIndex(tags, index);
    }

    /**
     * `handleSave`: the post is handed on, untrimmed and with its tags in
     * order, exactly when neither the title nor the content is blank; the form
     * itself is left as it is.
     */
    method HandleSave() returns (saved: Option<Draft>)
      ensures saved.Some? <==> Trim(title) != "" && Trim(content) != ""
      ensures saved.Some? ==> saved.value == Draft(title, content, tags)
    {
      if Trim(title) == "" || Trim(content) == "" {
        return None;
      }
      saved := Some(Draft(title, content, tags));
    }
  }
}
