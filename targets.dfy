/** What a like points at: exactly one post or exactly one comment. */
module Targets {

  datatype Target = PostTarget(id: int) | CommentTarget(id: int)
}
