/** The `Vec` class of chapter 6: a two-dimensional vector whose constructor
    copies `x` and `y` onto the new object, with `plus` and `minus`. Its
    methods build new vectors and never change one, so a `Vec` is a value. */
module Vectors {

  datatype Vec = Vec(x: int, y: int)

  /** `new Vec(x, y)`: `Object.assign(this, {x, y})`. */
  function NewVec(x: int, y: int): Vec
  {
    Vec(x, y)
  }

  /** `plus(vec)`. */
  function Plus(a: Vec, b: Vec): Vec {
    NewVec(a.x + b.x, a.y + b.y)
  }

  /** `minus(vec)`. */
  function Minus(a: Vec, b: Vec): Vec {
    NewVec(a.x - b.x, a.y - b.y)
  }

  /** `plus` and `minus` work coordinate by coordinate:
      (1,2)+(2,3) = (3,5) and (1,2)-(2,3) = (-1,-1). */
  lemma PlusMinusComponentwise(a: Vec, b: Vec)
    ensures Plus(a, b).x == a.x + b.x && Plus(a, b).y == a.y + b.y
    ensures Minus(a, b).x == a.x - b.x && Minus(a, b).y == a.y - b.y
    ensures Plus(NewVec(1, 2), NewVec(2, 3)) == Vec(3, 5)
    ensures Minus(NewVec(1, 2), NewVec(2, 3)) == Vec(-1, -1)
  {
  }

  /** `minus` undoes `plus`; `plus` is commutative and associative, with
      the zero vector as its identity. */
  lemma PlusMinusAlgebra(a: Vec, b: Vec, c: Vec)
    ensures Minus(Plus(a, b), b) == a
    ensures Plus(Minus(a, b), b) == a
    ensures Plus(a, b) == Plus(b, a)
    ensures Plus(Plus(a, b), c) == Plus(a, Plus(b, c))
    ensures Plus(a, NewVec(0, 0)) == a
    ensures Minus(a, a) == NewVec(0, 0)
  {
  }
}
