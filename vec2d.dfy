/** The two-dimensional vector of src/vec2d.rs, reduced to what the trail needs:
    a value with two coordinates that is copied, never shared. The trail stores
    and returns these values without computing with them, so the vector
    arithmetic (with its f32 rounding) is not part of this model. */
module Vectors {
  datatype Vec2d = Vec2d(x: real, y: real)
}
